/** The part of an Express response every handler sets: the status code and
    the `success` and `message` fields of the JSON body. */
module Http {
  datatype Reply = Reply(code: nat, success: bool, message: string)

  /** A reply with `success: false`. */
  function Fail(code: nat, message: string): Reply
  {
    Reply(code, false, message)
  }

  /** A reply with `success: true`. */
  function Ok(code: nat, message: string): Reply
  {
    Reply(code, true, message)
  }
}
