/** `impl::dispatch_cancel`: one cancel request through libpq, reduced to an error code and a
    message. */
module Cancel {
  import opened Trimming

  /** The error codes the cancel operation yields. */
  datatype CancelCode = NoError | PqCancelFailed

  /** The outcome of dispatching a cancel request, given what `pq_cancel` returned and the error
      text it wrote into its buffer: no error and an empty message when it succeeded, otherwise
      the cancel-failed code with the text, trailing NUL characters removed. */
  function DispatchCancel(cancelled: bool, written: string): (CancelCode, string)
  {
    if cancelled then (NoError, "") else (PqCancelFailed, StripTrailing(written, 0 as char))
  }

  /** An error is reported exactly when `pq_cancel` failed; its message is the written text
      without its trailing NULs, and the empty message of a success. */
  lemma DispatchCancelOutcome(cancelled: bool, written: string)
    ensures DispatchCancel(cancelled, written).0 == PqCancelFailed <==> !cancelled
    ensures cancelled ==> DispatchCancel(cancelled, written).1 == ""
    ensures !cancelled ==> Stripped(written, 0 as char, DispatchCancel(cancelled, written).1)
  {
    StripTrailingStrips(written, 0 as char);
  }

  /** The messages of the tests: a message kept as written, the same with ten NULs after it, and
      ten NULs alone. */
  lemma DispatchCancelExamples()
    ensures DispatchCancel(true, "") == (NoError, "")
    ensures DispatchCancel(false, "error message") == (PqCancelFailed, "error message")
    ensures DispatchCancel(false, "error message" + seq(10, _ => 0 as char)) == (PqCancelFailed, "error message")
    ensures DispatchCancel(false, seq(10, _ => 0 as char)) == (PqCancelFailed, "")
  {
    NothingToStrip("error message", 0 as char);
    StripAppended("error message", 0 as char, 10);
    OnlyTheCharacter(seq(10, _ => 0 as char), 0 as char);
  }
}
