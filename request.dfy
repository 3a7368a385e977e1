/** The request executors of the calculator server: each decides a request, given as the whole
    text the client sent, against a constant table of accepted values. */
module Request {
  import opened Wrappers

  /** The accepted passwords and login names. */
  const PasswordCollection: seq<string> := ["password"]
  const LoginCollection: seq<string> := ["belousotroll", "sappyk", "zakruzhnoy", "gladkikh"]

  /** Byte counts each executor drops from the start of the request: the lengths of "login ",
      "password " and "calc ". */
  const LoginShift: nat := 6
  const PasswordShift: nat := 9
  const CalcShift: nat := 5

  /** `std::find` over a table: the position of the first entry equal to x, or the table's size. */
  function FindEntry(table: seq<string>, x: string): (k: nat)
    ensures k <= |table|
    ensures k < |table| ==> table[k] == x
    ensures forall j :: 0 <= j < k ==> table[j] != x
  {
    if |table| == 0 then 0
    else if table[0] == x then 0
    else 1 + FindEntry(table[1..], x)
  }

  /** `hasDatabaseMath<Table, shift>`: whether the request, with its first shift bytes dropped,
      equals an entry of the table. The request must be at least shift bytes long. */
  function HasDatabaseMatch(request: string, shift: nat, table: seq<string>): bool
    requires |request| >= shift
  {
    FindEntry(table, request[shift..]) != |table|
  }

  /** A match is exactly table membership of what is left after the shift. */
  lemma DatabaseMatchIsMembership(request: string, shift: nat, table: seq<string>)
    requires |request| >= shift
    ensures HasDatabaseMatch(request, shift, table) <==> request[shift..] in table
  {
  }

  /** The C string starting at a position: the text up to the first NUL character, or to the end
      when there is none (the request buffer is taken to be terminated right after its end). */
  function CStringAt(s: string, from: nat): (r: string)
    requires from <= |s|
    ensures |r| <= |s| - from && r == s[from..from + |r|]
    ensures 0 as char !in r
    ensures from + |r| < |s| ==> s[from + |r|] == 0 as char
    decreases |s| - from
  {
    if from == |s| || s[from] == 0 as char then []
    else [s[from]] + CStringAt(s, from + 1)
  }

  /** `login_executor::exec`. */
  function LoginExec(request: string): Option<bool>
    requires |request| >= LoginShift
  {
    Some(HasDatabaseMatch(request, LoginShift, LoginCollection))
  }

  /** `password_executor::exec`. */
  function PasswordExec(request: string): Option<bool>
    requires |request| >= PasswordShift
  {
    Some(HasDatabaseMatch(request, PasswordShift, PasswordCollection))
  }

  /** `calc_executor::exec`: the text after "calc ", read as a C string, is looked up among the
      login names; no expression is evaluated. */
  function CalcExec(request: string): Option<bool>
    requires |request| >= CalcShift
  {
    Some(FindEntry(LoginCollection, CStringAt(request, CalcShift)) != |LoginCollection|)
  }

  /** `logout_executor::exec` and `incorrect_executor::exec` accept anything. */
  function LogoutExec(request: string): Option<bool>
  {
    Some(true)
  }

  function IncorrectExec(request: string): Option<bool>
  {
    Some(true)
  }

  /** The instantiations of `basic_executor`: one per executor, and the `nullptr_t` one. */
  datatype Executor = LoginRequest | PasswordRequest | CalcRequest | LogoutRequest | IncorrectRequest | NullRequest

  /** The shift an executor applies to the request, hence the least length it reads. */
  function MinLength(e: Executor): nat
  {
    match e
    case LoginRequest => LoginShift
    case PasswordRequest => PasswordShift
    case CalcRequest => CalcShift
    case _ => 0
  }

  /** `basic_executor<E>::exec`: the executor's own `exec`; the `nullptr_t` one has no answer. */
  function Exec(e: Executor, request: string): Option<bool>
    requires |request| >= MinLength(e)
  {
    match e
    case LoginRequest => LoginExec(request)
    case PasswordRequest => PasswordExec(request)
    case CalcRequest => CalcExec(request)
    case LogoutRequest => LogoutExec(request)
    case IncorrectRequest => IncorrectExec(request)
    case NullRequest => None
  }

  /** Every executor but the `nullptr_t` one answers; logout and incorrect always accept; login
      and password accept exactly the table entries after their shift. */
  lemma ExecAnswers(e: Executor, request: string)
    requires |request| >= MinLength(e)
    ensures Exec(e, request).Some? <==> e != NullRequest
    ensures e == LogoutRequest || e == IncorrectRequest ==> Exec(e, request) == Some(true)
    ensures e == LoginRequest ==> (Exec(e, request) == Some(true) <==> request[LoginShift..] in LoginCollection)
    ensures e == PasswordRequest ==> (Exec(e, request) == Some(true) <==> request[PasswordShift..] in PasswordCollection)
  {
    if e == LoginRequest {
      DatabaseMatchIsMembership(request, LoginShift, LoginCollection);
    } else if e == PasswordRequest {
      DatabaseMatchIsMembership(request, PasswordShift, PasswordCollection);
    }
  }

  /** Without a NUL character the C string is the rest of the text. */
  lemma {:induction false} CStringWithoutNul(s: string, from: nat)
    requires from <= |s| && 0 as char !in s[from..]
    ensures CStringAt(s, from) == s[from..]
    decreases |s| - from
  {
    if from < |s| {
      assert s[from] == s[from..][0];
      assert 0 as char !in s[from + 1..] by {
        assert s[from + 1..] == s[from..][1..];
      }
      CStringWithoutNul(s, from + 1);
    }
  }

  /** calc accepts exactly the requests whose text after the shift, up to the first NUL, is a
      login name; without a NUL that is the whole text after the shift. */
  lemma CalcMatchesLogins(request: string)
    requires |request| >= CalcShift
    ensures CalcExec(request) == Some(true) <==> CStringAt(request, CalcShift) in LoginCollection
    ensures 0 as char !in request[CalcShift..] ==>
      (CalcExec(request) == Some(true) <==> request[CalcShift..] in LoginCollection)
  {
    if 0 as char !in request[CalcShift..] {
      CStringWithoutNul(request, CalcShift);
    }
  }
}
