/** The request handler of the calculator server: a request is first classified by the keyword it
    contains, after a check that it holds at most one whitespace character, and then decided by
    the executor of its class. */
module RequestHandler {
  import opened Wrappers
  import opened Request

  /** `isspace` in the C locale. */
  predicate IsSpace(c: char)
  {
    c == ' ' || c == '\t' || c == '\n' || c == '\U{0B}' || c == '\U{0C}' || c == '\r'
  }

  /** The number of whitespace characters of a text, counted without bound. */
  function SpaceCount(s: string): (n: nat)
    ensures n <= |s|
  {
    if |s| == 0 then 0
    else SpaceCount(s[..|s| - 1]) + (if IsSpace(s[|s| - 1]) then 1 else 0)
  }

  /** The counter of `isLessThanTwoWords` is an `unsigned short`: it counts modulo 2^16. */
  const CounterModulus: nat := 0x1_0000

  /** The `isLessThanTwoWords` check as the source computes it: the wrapped count is at most one. */
  predicate FewSpaces(request: string)
  {
    SpaceCount(request) % CounterModulus <= 1
  }

  /** The `isLessThanTwoWords` lambda: one pass over the request with a 16-bit counter. */
  method IsLessThanTwoWords(request: string) returns (b: bool)
    ensures b <==> FewSpaces(request)
  {
    var counter := 0;
    for i := 0 to |request|
      invariant 0 <= counter < CounterModulus
      invariant counter == SpaceCount(request[..i]) % CounterModulus
    {
      assert request[..i + 1][..i] == request[..i];
      if IsSpace(request[i]) {
        counter := (counter + 1) % CounterModulus;
      }
    }
    assert request[..|request|] == request;
    b := counter <= 1;
  }

  /** Below 2^16 characters the counter cannot wrap: the check is exactly "at most one
      whitespace character". */
  lemma FewSpacesExact(request: string)
    requires |request| < CounterModulus
    ensures FewSpaces(request) <==> SpaceCount(request) <= 1
  {
    var n := SpaceCount(request);
    assert n % CounterModulus == n;
  }

  /** Counting distributes over concatenation. */
  lemma {:induction false} SpaceCountAppend(s: string, t: string)
    ensures SpaceCount(s + t) == SpaceCount(s) + SpaceCount(t)
    decreases |t|
  {
    if |t| == 0 {
      assert s + t == s;
    } else {
      var t' := t[..|t| - 1];
      assert (s + t)[..|s + t| - 1] == s + t';
      assert (s + t)[|s + t| - 1] == t[|t| - 1];
      SpaceCountAppend(s, t');
    }
  }

  /** A run of n whitespace characters counts n. */
  lemma {:induction false} SpaceCountAllSpaces(s: string)
    requires forall i :: 0 <= i < |s| ==> IsSpace(s[i])
    ensures SpaceCount(s) == |s|
  {
    if |s| > 0 {
      SpaceCountAllSpaces(s[..|s| - 1]);
    }
  }

  /** An occurrence of pat at position i of s. */
  predicate OccursAt(s: string, pat: string, i: nat)
  {
    i + |pat| <= |s| && s[i..i + |pat|] == pat
  }

  /** `std::string_view::find` from a position: the first occurrence at or after it, or -1 for
      `npos`. */
  function FindFrom(s: string, pat: string, from: nat): (k: int)
    requires from <= |s|
    ensures k == -1 || from <= k <= |s|
    ensures k >= 0 ==> OccursAt(s, pat, k) && forall j :: from <= j < k ==> !OccursAt(s, pat, j)
    ensures k == -1 ==> forall j :: from <= j ==> !OccursAt(s, pat, j)
    decreases |s| - from
  {
    if from + |pat| > |s| then -1
    else if s[from..from + |pat|] == pat then from
    else FindFrom(s, pat, from + 1)
  }

  function Find(s: string, pat: string): int
  {
    FindFrom(s, pat, 0)
  }

  predicate Contains(s: string, pat: string)
  {
    Find(s, pat) != -1
  }

  /** `find` reports a match exactly when the pattern occurs somewhere. */
  lemma ContainsIff(s: string, pat: string)
    ensures Contains(s, pat) <==> exists i :: OccursAt(s, pat, i)
  {
  }

  /** A text lacking one of the pattern's characters does not contain the pattern. */
  lemma MissingCharacter(s: string, pat: string, c: char)
    requires c in pat && c !in s
    ensures !Contains(s, pat)
  {
  }

  /** The keywords, in the order the classifier tries them. */
  const LoginKeyword: string := "login "
  const PasswordKeyword: string := "password "
  const CalcKeyword: string := "calc "
  const LogoutKeyword: string := "logout"

  /** `RequestHandler::requestType`. */
  datatype RequestType = Login | Password | Calc | Logout | Incorrect

  /** The enumerators' values. */
  function Ordinal(t: RequestType): int
  {
    match t
    case Login => 0
    case Password => 1
    case Calc => 2
    case Logout => 4
    case Incorrect => -1
  }

  /** The class of a request: too many whitespace characters make it incorrect; otherwise the
      first keyword found, in the order login, password, calc, logout, decides; none found makes
      it incorrect. */
  function RequestTypeOf(request: string): RequestType
  {
    if !FewSpaces(request) then Incorrect
    else if Contains(request, LoginKeyword) then Login
    else if Contains(request, PasswordKeyword) then Password
    else if Contains(request, CalcKeyword) then Calc
    else if Contains(request, LogoutKeyword) then Logout
    else Incorrect
  }

  /** `defineRequestType`. */
  method DefineRequestType(request: string) returns (t: RequestType)
    ensures t == RequestTypeOf(request)
  {
    var few := IsLessThanTwoWords(request);
    if !few {
      return Incorrect;
    }
    if Find(request, LoginKeyword) != -1 {
      return Login;
    } else if Find(request, PasswordKeyword) != -1 {
      return Password;
    } else if Find(request, CalcKeyword) != -1 {
      return Calc;
    } else if Find(request, LogoutKeyword) != -1 {
      return Logout;
    }
    return Incorrect;
  }

  /** The keyword that selects a class, and the keywords tried before it. */
  function Keyword(t: RequestType): string
    requires t != Incorrect
  {
    match t
    case Login => LoginKeyword
    case Password => PasswordKeyword
    case Calc => CalcKeyword
    case Logout => LogoutKeyword
  }

  function Earlier(t: RequestType): seq<string>
    requires t != Incorrect
  {
    match t
    case Login => []
    case Password => [LoginKeyword]
    case Calc => [LoginKeyword, PasswordKeyword]
    case Logout => [LoginKeyword, PasswordKeyword, CalcKeyword]
  }

  /** A request gets a class other than incorrect exactly when it passes the whitespace check,
      contains that class's keyword and none of the keywords tried before; it is incorrect
      exactly when it fails the check or contains no keyword. */
  lemma ClassifiedByKeyword(request: string, t: RequestType)
    ensures t != Incorrect ==>
      (RequestTypeOf(request) == t <==>
        FewSpaces(request) && Contains(request, Keyword(t)) &&
        forall i :: 0 <= i < |Earlier(t)| ==> !Contains(request, Earlier(t)[i]))
    ensures RequestTypeOf(request) == Incorrect <==>
      !FewSpaces(request) ||
      (!Contains(request, LoginKeyword) && !Contains(request, PasswordKeyword) &&
       !Contains(request, CalcKeyword) && !Contains(request, LogoutKeyword))
  {
    if t == Calc && FewSpaces(request) && Contains(request, Keyword(t)) &&
       (forall i :: 0 <= i < |Earlier(t)| ==> !Contains(request, Earlier(t)[i])) {
      assert !Contains(request, Earlier(t)[0]) && !Contains(request, Earlier(t)[1]);
    }
    if t == Logout && FewSpaces(request) && Contains(request, Keyword(t)) &&
       (forall i :: 0 <= i < |Earlier(t)| ==> !Contains(request, Earlier(t)[i])) {
      assert !Contains(request, Earlier(t)[0]) && !Contains(request, Earlier(t)[1]);
      assert !Contains(request, Earlier(t)[2]);
    }
    if t == Password && FewSpaces(request) && Contains(request, Keyword(t)) &&
       (forall i :: 0 <= i < |Earlier(t)| ==> !Contains(request, Earlier(t)[i])) {
      assert !Contains(request, Earlier(t)[0]);
    }
  }

  /** The executor the `switch` of `handle` picks; the incorrect class falls through to the
      incorrect executor. */
  function ExecutorOf(t: RequestType): Executor
  {
    match t
    case Login => LoginRequest
    case Password => PasswordRequest
    case Calc => CalcRequest
    case Logout => LogoutRequest
    case Incorrect => IncorrectRequest
  }

  /** A request is at least as long as the keyword of its class, so the executor's shift never
      runs past its end. */
  lemma DispatchedLongEnough(request: string)
    ensures |request| >= MinLength(ExecutorOf(RequestTypeOf(request)))
    ensures RequestTypeOf(request) != Incorrect ==> |request| >= |Keyword(RequestTypeOf(request))|
  {
    var t := RequestTypeOf(request);
    if t != Incorrect {
      var k := Find(request, Keyword(t));
      assert OccursAt(request, Keyword(t), k);
    }
  }

  /** The answer of `handle`. */
  function HandleSpec(request: string): Option<bool>
  {
    DispatchedLongEnough(request);
    Exec(ExecutorOf(RequestTypeOf(request)), request)
  }

  /** `handle`: classify the request, then run its executor. */
  method Handle(request: string) returns (r: Option<bool>)
    ensures r == HandleSpec(request)
  {
    var t := DefineRequestType(request);
    DispatchedLongEnough(request);
    match t
    case Login => r := LoginExec(request);
    case Password => r := PasswordExec(request);
    case Calc => r := CalcExec(request);
    case Logout => r := LogoutExec(request);
    case Incorrect => r := IncorrectExec(request);
  }

  /** `handle` always answers; it refuses exactly a login, password or calc request whose text
      after the keyword's length is not in the table that executor consults. */
  lemma HandleAnswers(request: string)
    ensures HandleSpec(request).Some?
    ensures HandleSpec(request) == Some(false) <==>
      (RequestTypeOf(request) == Login && request[LoginShift..] !in LoginCollection) ||
      (RequestTypeOf(request) == Password && request[PasswordShift..] !in PasswordCollection) ||
      (RequestTypeOf(request) == Calc && CStringAt(request, CalcShift) !in LoginCollection)
  {
    var t := RequestTypeOf(request);
    DispatchedLongEnough(request);
    ExecAnswers(ExecutorOf(t), request);
    if t == Calc {
      CalcMatchesLogins(request);
    }
  }

  /** A text without whitespace counts none. */
  lemma {:induction false} SpaceCountNone(s: string)
    requires forall i :: 0 <= i < |s| ==> !IsSpace(s[i])
    ensures SpaceCount(s) == 0
  {
    if |s| > 0 {
      SpaceCountNone(s[..|s| - 1]);
    }
  }

  /** Two words joined by one space pass the whitespace check. */
  lemma TwoWords(a: string, b: string)
    requires forall i :: 0 <= i < |a| ==> !IsSpace(a[i])
    requires forall i :: 0 <= i < |b| ==> !IsSpace(b[i])
    ensures SpaceCount(a + " " + b) == 1 && FewSpaces(a + " " + b)
  {
    SpaceCountNone(a);
    SpaceCountNone(b);
    SpaceCountAppend(a, " ");
    SpaceCountAppend(a + " ", b);
  }

  /** A request that passes the whitespace check and contains "login " is answered by whether
      its text after six characters is a login name. */
  lemma LoginAnswer(request: string, i: nat)
    requires FewSpaces(request) && OccursAt(request, LoginKeyword, i)
    ensures RequestTypeOf(request) == Login
    ensures HandleSpec(request) == Some(request[LoginShift..] in LoginCollection)
  {
    HandleAnswers(request);
  }

  /** A request that passes the check, lacks "login " and contains "password " is answered by
      whether its text after nine characters is the password. */
  lemma PasswordAnswer(request: string, i: nat)
    requires FewSpaces(request) && !Contains(request, LoginKeyword) && OccursAt(request, PasswordKeyword, i)
    ensures RequestTypeOf(request) == Password
    ensures HandleSpec(request) == Some(request[PasswordShift..] in PasswordCollection)
  {
    HandleAnswers(request);
  }

  /** A request that passes the check, lacks "login " and "password " and contains "calc " and
      no NUL is answered by whether its text after five characters is a login name. */
  lemma CalcAnswer(request: string, i: nat)
    requires FewSpaces(request) && !Contains(request, LoginKeyword) && !Contains(request, PasswordKeyword)
    requires OccursAt(request, CalcKeyword, i) && 0 as char !in request
    ensures RequestTypeOf(request) == Calc
    ensures HandleSpec(request) == Some(request[CalcShift..] in LoginCollection)
  {
    HandleAnswers(request);
    CalcMatchesLogins(request);
  }

  /** Login requests: a known name is accepted, an unknown one refused. */
  lemma LoginExample()
    ensures RequestTypeOf("login sappyk") == Login && HandleSpec("login sappyk") == Some(true)
  {
    TwoWords("login", "sappyk");
    assert "login sappyk" == "login" + " " + "sappyk";
    LoginAnswer("login sappyk", 0);
    assert "login sappyk"[LoginShift..] == LoginCollection[1];
  }

  lemma UnknownLoginExample()
    ensures RequestTypeOf("login nobody") == Login && HandleSpec("login nobody") == Some(false)
  {
    TwoWords("login", "nobody");
    assert "login nobody" == "login" + " " + "nobody";
    LoginAnswer("login nobody", 0);
    assert "login nobody"[LoginShift..] == "nobody";
  }

  /** The name is cut from the start of the request, not from where the keyword was found, so a
      request with a character before the keyword is refused. */
  lemma LoginAfterPrefixExample()
    ensures RequestTypeOf("xlogin sappyk") == Login && HandleSpec("xlogin sappyk") == Some(false)
  {
    TwoWords("xlogin", "sappyk");
    assert "xlogin sappyk" == "xlogin" + " " + "sappyk";
    LoginAnswer("xlogin sappyk", 1);
    assert "xlogin sappyk"[LoginShift..] == " sappyk";
  }

  /** The one password is accepted. */
  lemma PasswordExample()
    ensures RequestTypeOf("password password") == Password && HandleSpec("password password") == Some(true)
  {
    TwoWords("password", "password");
    assert "password password" == "password" + " " + "password";
    MissingCharacter("password password", LoginKeyword, 'g');
    PasswordAnswer("password password", 0);
    assert "password password"[PasswordShift..] == PasswordCollection[0];
  }

  /** A calc request is looked up among the login names, so an expression is refused. */
  lemma CalcExample()
    ensures RequestTypeOf("calc 2+2") == Calc && HandleSpec("calc 2+2") == Some(false)
  {
    var r := "calc 2+2";
    assert FewSpaces(r) by {
      TwoWords("calc", "2+2");
      assert r == "calc" + " " + "2+2";
    }
    assert !Contains(r, LoginKeyword) by { MissingCharacter(r, LoginKeyword, 'g'); }
    assert !Contains(r, PasswordKeyword) by { MissingCharacter(r, PasswordKeyword, 'p'); }
    assert r[CalcShift..] !in LoginCollection by { assert r[CalcShift..] == "2+2"; }
    CalcAnswer(r, 0);
  }

  /** A logout request is accepted. */
  lemma LogoutExample()
    ensures RequestTypeOf("logout") == Logout && HandleSpec("logout") == Some(true)
  {
    var r := "logout";
    assert FewSpaces(r) by { SpaceCountNone(r); }
    MissingCharacter(r, LoginKeyword, ' ');
    MissingCharacter(r, PasswordKeyword, 'p');
    MissingCharacter(r, CalcKeyword, 'c');
    assert OccursAt(r, LogoutKeyword, 0);
    HandleAnswers(r);
  }

  /** Three words make any request incorrect, and an incorrect request is accepted. */
  lemma IncorrectExample()
    ensures RequestTypeOf("login a b") == Incorrect && HandleSpec("login a b") == Some(true)
  {
    var r := "login a b";
    assert !FewSpaces(r) by {
      var first, rest := "login a", " b";
      assert SpaceCount(first) == 1 by {
        TwoWords("login", "a");
        assert first == "login" + " " + "a";
      }
      assert SpaceCount(rest) == 1 by {
        assert rest[..1] == " ";
      }
      SpaceCountAppend(first, rest);
      assert r == first + rest;
    }
  }

  /** The 16-bit counter wraps: a login request followed by 2^16 tabs has 2^16 + 1 whitespace
      characters, yet passes the check and is refused as a login instead of being answered as an
      incorrect request. */
  lemma SpaceCounterWraps(tabs: string)
    requires |tabs| == CounterModulus && forall i :: 0 <= i < |tabs| ==> tabs[i] == '\t'
    ensures SpaceCount("login sappyk" + tabs) == CounterModulus + 1
    ensures RequestTypeOf("login sappyk" + tabs) == Login
    ensures HandleSpec("login sappyk" + tabs) == Some(false)
  {
    var request := "login sappyk" + tabs;
    TwoWords("login", "sappyk");
    assert "login sappyk" == "login" + " " + "sappyk";
    SpaceCountAppend("login sappyk", tabs);
    SpaceCountAllSpaces(tabs);
    assert request[0..|LoginKeyword|] == LoginKeyword;
    assert OccursAt(request, LoginKeyword, 0);
    HandleAnswers(request);
    assert |request[LoginShift..]| > 12;
  }
}
