/** The default settings shared by the server manager, the command line and the client (config.ts). */
module Defaults {

  /** Host port the translation container is published on. */
  const Port: int := 24080

  /** Docker image of the translation service. */
  const Image: string := "easynmt/api:2.0-cpu"

  /** Name given to the container the server manager creates. */
  const Container: string := "docker-easynmt"

  /** Host the client connects to when none is given. */
  const Host: string := "localhost"
}
