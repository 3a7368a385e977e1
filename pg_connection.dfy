/** The connection status helpers: the trimmed libpq error message of a connection, and whether a
    connection is usable (`connection_good`) or not (`connection_bad`). */
module PgConnection {
  import opened Trimming

  /** `std::string_view::npos`, the largest value of the 64-bit `size_t`. */
  const Npos: nat := 0xFFFF_FFFF_FFFF_FFFF

  /** `find_last_not_of(c)`: the position of the last character other than c, or npos. */
  function FindLastNotOf(s: string, c: char): (k: nat)
    requires |s| < Npos
    ensures k == Npos || k < |s|
    ensures k < |s| ==> s[k] != c && forall j :: k < j < |s| ==> s[j] == c
    ensures k == Npos ==> forall j :: 0 <= j < |s| ==> s[j] == c
  {
    if |s| == 0 then Npos
    else if s[|s| - 1] != c then |s| - 1
    else FindLastNotOf(s[..|s| - 1], c)
  }

  /** `detail::connection_error_message`: the message libpq reports, as a view whose suffix after
      the last non-space character is removed. The position after npos wraps around to 0 in
      `size_t`, so a message of spaces only keeps nothing. */
  function ConnectionErrorMessage(message: string): string
    requires |message| < Npos
  {
    var keep := (FindLastNotOf(message, ' ') + 1) % (Npos + 1);
    message[..|message| - (|message| - keep)]
  }

  /** The position after k in `size_t`: npos wraps around to 0. */
  lemma PositionAfter(k: nat)
    requires k <= Npos
    ensures (k + 1) % (Npos + 1) == if k == Npos then 0 else k + 1
  {
  }

  /** The trimmed message is the message without all of its trailing spaces, and nothing else. */
  lemma ErrorMessageStripsSpaces(message: string)
    requires |message| < Npos
    ensures Stripped(message, ' ', ConnectionErrorMessage(message))
    ensures ConnectionErrorMessage(message) == StripTrailing(message, ' ')
  {
    var k := FindLastNotOf(message, ' ');
    var keep := if k == Npos then 0 else k + 1;
    var r := ConnectionErrorMessage(message);
    assert r == message[..keep] by {
      PositionAfter(k);
    }
    assert Stripped(message, ' ', r);
    StripTrailingStrips(message, ' ');
    StrippedUnique(message, ' ', r, StripTrailing(message, ' '));
  }

  /** The messages of the tests. */
  lemma ErrorMessageExamples()
    ensures ConnectionErrorMessage("error message with trailing spaces   ") == "error message with trailing spaces"
    ensures ConnectionErrorMessage("error message without trailing spaces") == "error message without trailing spaces"
    ensures ConnectionErrorMessage("") == ""
    ensures ConnectionErrorMessage("    ") == ""
  {
    ErrorMessageStripsSpaces("error message with trailing spaces   ");
    StripAppended("error message with trailing spaces", ' ', 3);
    assert "error message with trailing spaces" + seq(3, _ => ' ') == "error message with trailing spaces   ";
    ErrorMessageStripsSpaces("error message without trailing spaces");
    NothingToStrip("error message without trailing spaces", ' ');
  }

  /** `PQstatus` of a native handle. */
  datatype Status = ConnectionOk | ConnectionBad

  /** A nullable connection object (a `std::shared_ptr` to a connection): null, or a connection
      whose native handle has a status and a current libpq error message. */
  datatype ConnPtr = NullConnection | Conn(status: Status, message: string)

  /** `connection_bad`: a null connection, or one whose handle is not in the OK state. */
  predicate IsConnectionBad(c: ConnPtr)
  {
    c.NullConnection? || c.status != ConnectionOk
  }

  /** `connection_good`: the negation of `connection_bad`. */
  predicate IsConnectionGood(c: ConnPtr)
  {
    !IsConnectionBad(c)
  }

  /** Good exactly for a non-null connection with an OK handle; bad exactly otherwise. */
  lemma GoodAndBad(c: ConnPtr)
    ensures IsConnectionGood(c) <==> c.Conn? && c.status == ConnectionOk
    ensures IsConnectionBad(c) <==> !IsConnectionGood(c)
    ensures c.NullConnection? ==> !IsConnectionGood(c) && IsConnectionBad(c)
  {
  }

  /** `error_message`: empty for a null connection, otherwise the trimmed libpq message. */
  function ErrorMessage(c: ConnPtr): string
    requires c.Conn? ==> |c.message| < Npos
  {
    if c.NullConnection? then "" else ConnectionErrorMessage(c.message)
  }

  lemma ErrorMessageOfConnection(c: ConnPtr)
    requires c.Conn? ==> |c.message| < Npos
    ensures c.NullConnection? ==> ErrorMessage(c) == ""
    ensures c.Conn? ==> Stripped(c.message, ' ', ErrorMessage(c))
  {
    if c.Conn? {
      ErrorMessageStripsSpaces(c.message);
    }
  }
}
