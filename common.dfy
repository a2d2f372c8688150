/** Small result types shared by the AMI client model. */
module Common {

  datatype Option<+T> = None | Some(value: T)

  /** The exceptions the client raises.  `EmptyCommand` and `UnknownEvent`
      are the two `AMIError`s, `CommandFailed` is `AMICommandError` carrying
      the server's `message`, and `MissingField` is the `KeyError` Python
      raises when a reply lacks a field the client indexes directly. */
  datatype Failure =
    | EmptyCommand
    | UnknownEvent(event: string)
    | CommandFailed(message: string)
    | MissingField(key: string)

  datatype Result<+T> = Ok(value: T) | Err(error: Failure)
}
