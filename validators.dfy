/** Input validators of app/utils/validators.py: the password-strength rule,
    the e-mail shape and the required-field check of the JSON decorator. */
module Validators {
  import opened Values
  import opened Text

  // ---------------------------------------------------------------------
  // Password strength

  const TooShort := "Password must be at least 8 characters"
  const NoUppercase := "Password must contain uppercase letter"
  const NoLowercase := "Password must contain lowercase letter"
  const NoDigit := "Password must contain digit"

  /** `re.search('[lo-hi]', s) is not None`. */
  function HasCharIn(s: string, lo: char, hi: char): (r: bool)
    ensures r <==> exists k :: 0 <= k < |s| && lo <= s[k] <= hi
  {
    if s == [] then false
    else if lo <= s[0] <= hi then true
    else
      var r := HasCharIn(s[1..], lo, hi);
      assert r ==> exists k :: 0 <= k < |s| && lo <= s[k] <= hi by {
        if r {
          var k :| 0 <= k < |s[1..]| && lo <= s[1..][k] <= hi;
          assert lo <= s[k + 1] <= hi;
        }
      }
      assert (exists k :: 0 <= k < |s| && lo <= s[k] <= hi) ==> r by {
        if exists k :: 0 <= k < |s| && lo <= s[k] <= hi {
          var k :| 0 <= k < |s| && lo <= s[k] <= hi;
          assert k != 0;
          assert s[1..][k - 1] == s[k];
        }
      }
      r
  }

  /** `validate_password`: the checks run in a fixed order and the first
      failing one gives the message; `\d` is read as the ASCII digits. */
  function ValidatePassword(password: string): (r: (bool, string))
    ensures r.0 <==> r.1 == ""
  {
    if |password| < 8 then (false, TooShort)
    else if !HasCharIn(password, 'A', 'Z') then (false, NoUppercase)
    else if !HasCharIn(password, 'a', 'z') then (false, NoLowercase)
    else if !HasCharIn(password, '0', '9') then (false, NoDigit)
    else (true, "")
  }

  /** The strength rule stated directly over the characters. */
  ghost predicate StrongPassword(p: string) {
    |p| >= 8
    && (exists k :: 0 <= k < |p| && 'A' <= p[k] <= 'Z')
    && (exists k :: 0 <= k < |p| && 'a' <= p[k] <= 'z')
    && (exists k :: 0 <= k < |p| && '0' <= p[k] <= '9')
  }

  /** A password passes exactly when it is strong, and then the message is empty. */
  lemma PasswordAcceptedIffStrong(p: string)
    ensures ValidatePassword(p).0 <==> StrongPassword(p)
    ensures ValidatePassword(p) == (true, "") <==> StrongPassword(p)
  {
  }

  /** Each message names the first failing check: every check before it passed. */
  lemma PasswordFirstFailure(p: string)
    ensures ValidatePassword(p).1 == TooShort <==> |p| < 8
    ensures ValidatePassword(p).1 == NoUppercase <==>
      |p| >= 8 && !(exists k :: 0 <= k < |p| && 'A' <= p[k] <= 'Z')
    ensures ValidatePassword(p).1 == NoLowercase <==>
      |p| >= 8 && (exists k :: 0 <= k < |p| && 'A' <= p[k] <= 'Z')
      && !(exists k :: 0 <= k < |p| && 'a' <= p[k] <= 'z')
    ensures ValidatePassword(p).1 == NoDigit <==>
      |p| >= 8 && (exists k :: 0 <= k < |p| && 'A' <= p[k] <= 'Z')
      && (exists k :: 0 <= k < |p| && 'a' <= p[k] <= 'z')
      && !(exists k :: 0 <= k < |p| && '0' <= p[k] <= '9')
  {
  }

  /** Length is checked first: a short password gets the length message whatever it holds. */
  lemma ShortPasswordGetsLengthMessage(p: string)
    requires |p| < 8
    ensures ValidatePassword(p) == (false, TooShort)
  {
  }

  // ---------------------------------------------------------------------
  // E-mail shape: ^[a-zA-Z0-9._%+-]+@[a-zA-Z0-9.-]+\.[a-zA-Z]{2,}$

  predicate Alpha(c: char) {
    'a' <= c <= 'z' || 'A' <= c <= 'Z'
  }

  predicate Alnum(c: char) {
    Alpha(c) || '0' <= c <= '9'
  }

  /** `[a-zA-Z0-9._%+-]` */
  predicate LocalChar(c: char) {
    Alnum(c) || c == '.' || c == '_' || c == '%' || c == '+' || c == '-'
  }

  /** `[a-zA-Z0-9.-]` */
  predicate DomainChar(c: char) {
    Alnum(c) || c == '.' || c == '-'
  }

  predicate AllLocal(s: string) {
    forall k :: 0 <= k < |s| ==> LocalChar(s[k])
  }

  predicate AllDomain(s: string) {
    forall k :: 0 <= k < |s| ==> DomainChar(s[k])
  }

  predicate AllAlpha(s: string) {
    forall k :: 0 <= k < |s| ==> Alpha(s[k])
  }

  /** The shape L '@' D '.' T: L non-empty over the local class, D non-empty
      over the domain class, T at least two ASCII letters. */
  ghost predicate EmailShape(e: string) {
    exists at, dot ::
      1 <= at && at + 2 <= dot && dot + 3 <= |e|
      && e[at] == '@' && e[dot] == '.'
      && AllLocal(e[..at]) && AllDomain(e[at + 1..dot]) && AllAlpha(e[dot + 1..])
  }

  /** Position of the first `c` in `s`. */
  function IndexOf(s: string, c: char): (r: Option<nat>)
    ensures r.Some? ==> r.value < |s| && s[r.value] == c
                        && forall j :: 0 <= j < r.value ==> s[j] != c
    ensures r.None? ==> forall j :: 0 <= j < |s| ==> s[j] != c
  {
    if s == [] then None
    else if s[0] == c then Some(0)
    else
      match IndexOf(s[1..], c)
      case None =>
        assert forall j :: 1 <= j < |s| ==> s[j] == s[1..][j - 1];
        None
      case Some(i) =>
        assert forall j :: 1 <= j <= i ==> s[j] == s[1..][j - 1];
        Some(i + 1)
  }

  /** Position of the last `c` in `s` (`s.rfind(c)`). */
  function LastIndexOf(s: string, c: char): (r: Option<nat>)
    ensures r.Some? ==> r.value < |s| && s[r.value] == c
                        && forall j :: r.value < j < |s| ==> s[j] != c
    ensures r.None? ==> forall j :: 0 <= j < |s| ==> s[j] != c
  {
    if s == [] then None
    else if s[|s| - 1] == c then Some(|s| - 1)
    else LastIndexOf(s[..|s| - 1], c)
  }

  /** Whole-string match of the pattern: the first '@' splits off the local
      part, and the last '.' after it splits the domain from the top level. */
  function ValidateEmail(e: string): (ok: bool)
    ensures ok ==> 6 <= |e| && '@' in e
  {
    match IndexOf(e, '@')
    case None => false
    case Some(at) =>
      var rest := e[at + 1..];
      match LastIndexOf(rest, '.')
      case None => false
      case Some(k) =>
        1 <= at && AllLocal(e[..at])
        && 1 <= k && AllDomain(rest[..k])
        && k + 3 <= |rest| && AllAlpha(rest[k + 1..])
  }

  /** The split points of an accepted string. */
  lemma EmailParts(e: string) returns (at: nat, dot: nat)
    requires ValidateEmail(e)
    ensures 1 <= at && at + 2 <= dot && dot + 3 <= |e|
    ensures e[at] == '@' && e[dot] == '.'
    ensures AllLocal(e[..at]) && AllDomain(e[at + 1..dot]) && AllAlpha(e[dot + 1..])
  {
    at := IndexOf(e, '@').value;
    var rest := e[at + 1..];
    var k := LastIndexOf(rest, '.').value;
    dot := at + 1 + k;
    assert e[at + 1..dot] == rest[..k];
    assert e[dot + 1..] == rest[k + 1..];
    assert e[dot] == rest[k];
  }

  /** An accepted string has the shape: the split points are witnesses. */
  lemma ValidateEmailSound(e: string)
    requires ValidateEmail(e)
    ensures EmailShape(e)
  {
    var at, dot := EmailParts(e);
  }

  /** A string of the shape is accepted: its '@' is the first one (the local
      part has none) and its '.' is the last one (the top level has none). */
  lemma ValidateEmailComplete(e: string, at: nat, dot: nat)
    requires 1 <= at && at + 2 <= dot && dot + 3 <= |e|
    requires e[at] == '@' && e[dot] == '.'
    requires AllLocal(e[..at]) && AllDomain(e[at + 1..dot]) && AllAlpha(e[dot + 1..])
    ensures ValidateEmail(e)
  {
    forall j | 0 <= j < at ensures e[j] != '@' {
      assert LocalChar(e[..at][j]);
    }
    var rest := e[at + 1..];
    var k := dot - at - 1;
    forall j | k < j < |rest| ensures rest[j] != '.' {
      assert rest[j] == e[dot + 1..][j - k - 1];
      assert Alpha(e[dot + 1..][j - k - 1]);
    }
    LastIndexOfUnique(rest, '.', k);
    assert rest[..k] == e[at + 1..dot];
    assert rest[k + 1..] == e[dot + 1..];
    assert IndexOf(e, '@') == Some(at);
  }

  /** The decision procedure accepts exactly the strings of the shape L@D.T. */
  lemma ValidateEmailIffShape(e: string)
    ensures ValidateEmail(e) <==> EmailShape(e)
  {
    if ValidateEmail(e) {
      ValidateEmailSound(e);
    }
    if EmailShape(e) {
      var at, dot :|
        1 <= at && at + 2 <= dot && dot + 3 <= |e|
        && e[at] == '@' && e[dot] == '.'
        && AllLocal(e[..at]) && AllDomain(e[at + 1..dot]) && AllAlpha(e[dot + 1..]);
      ValidateEmailComplete(e, at, dot);
    }
  }

  /** Number of occurrences of `c` in `s`. */
  function Count(s: string, c: char): nat {
    if s == [] then 0 else (if s[|s| - 1] == c then 1 else 0) + Count(s[..|s| - 1], c)
  }

  lemma {:induction false} CountAppend(a: string, b: string, c: char)
    ensures Count(a + b, c) == Count(a, c) + Count(b, c)
    decreases |b|
  {
    if b != [] {
      assert (a + b)[..|a + b| - 1] == a + b[..|b| - 1];
      CountAppend(a, b[..|b| - 1], c);
    } else {
      assert a + b == a;
    }
  }

  lemma {:induction false} CountAbsent(s: string, c: char)
    requires forall k :: 0 <= k < |s| ==> s[k] != c
    ensures Count(s, c) == 0
  {
    if s != [] {
      CountAbsent(s[..|s| - 1], c);
    }
  }

  /** A string with one `c` between two stretches free of it holds exactly one `c`. */
  lemma CountOne(l: string, c: char, r: string)
    requires forall k :: 0 <= k < |l| ==> l[k] != c
    requires forall k :: 0 <= k < |r| ==> r[k] != c
    ensures Count(l + [c] + r, c) == 1
  {
    CountAbsent(l, c);
    CountAbsent(r, c);
    CountAppend(l, [c], c);
    CountAppend(l + [c], r, c);
    assert [c][..0] == [];
  }

  /** Every accepted address holds exactly one '@'. */
  lemma AcceptedEmailHasOneAt(e: string)
    requires ValidateEmail(e)
    ensures Count(e, '@') == 1
  {
    var at := IndexOf(e, '@').value;
    var rest := e[at + 1..];
    var k := LastIndexOf(rest, '.').value;
    assert forall j :: 0 <= j < k ==> rest[j] == rest[..k][j];
    assert forall j :: k < j < |rest| ==> rest[j] == rest[k + 1..][j - k - 1];
    assert forall j :: 0 <= j < |rest| ==> rest[j] != '@';
    assert forall j :: 0 <= j < at ==> e[..at][j] != '@';
    assert e == e[..at] + ['@'] + rest;
    CountOne(e[..at], '@', rest);
  }

  /** In every accepted address the text after the last '.' is two or more letters. */
  lemma AcceptedEmailTopLevel(e: string)
    requires ValidateEmail(e)
    ensures LastIndexOf(e, '.').Some?
    ensures |e| - LastIndexOf(e, '.').value - 1 >= 2
    ensures AllAlpha(e[LastIndexOf(e, '.').value + 1..])
  {
    var at, dot := EmailParts(e);
    forall j | dot < j < |e| ensures e[j] != '.' {
      assert e[j] == e[dot + 1..][j - dot - 1];
    }
    LastIndexOfUnique(e, '.', dot);
  }

  /** The last occurrence is determined by where `c` occurs. */
  lemma {:induction false} LastIndexOfUnique(s: string, c: char, i: nat)
    requires i < |s| && s[i] == c
    requires forall j :: i < j < |s| ==> s[j] != c
    ensures LastIndexOf(s, c) == Some(i)
    decreases |s|
  {
    if i != |s| - 1 {
      assert forall j :: i < j < |s| - 1 ==> s[..|s| - 1][j] == s[j];
      LastIndexOfUnique(s[..|s| - 1], c, i);
    }
  }

  /** `re.match(pattern, email) is not None` as written: Python's `$` also
      matches just before a final newline, so one trailing '\n' is let through. */
  function EmailMatchAsWritten(e: string): (ok: bool)
    ensures ValidateEmail(e) ==> ok
    ensures ok && !ValidateEmail(e) ==> e != [] && e[|e| - 1] == '\n'
  {
    ValidateEmail(e) || (e != [] && e[|e| - 1] == '\n' && ValidateEmail(e[..|e| - 1]))
  }

  /** The pattern as written accepts an address with a trailing newline,
      which the whole-string shape rejects. */
  lemma TrailingNewlineAccepted()
    ensures EmailMatchAsWritten("a@b.co\n")
    ensures !ValidateEmail("a@b.co\n")
  {
    var e := "a@b.co\n";
    assert e[..|e| - 1] == "a@b.co";
    PlainAddressAccepted();
    NewlineAddressRejected();
  }

  lemma PlainAddressAccepted()
    ensures ValidateEmail("a@b.co")
  {
    var good := "a@b.co";
    assert good[..1] == "a" && good[2..3] == "b" && good[4..] == "co";
    ValidateEmailComplete(good, 1, 3);
  }

  lemma NewlineAddressRejected()
    ensures !ValidateEmail("a@b.co\n")
  {
    var e := "a@b.co\n";
    assert IndexOf(e, '@') == Some(1) by {
      assert e[1..][0] == '@';
    }
    assert e[2..] == "b.co\n";
    LastIndexOfUnique(e[2..], '.', 1);
    assert e[2..][2..] == "co\n";
    assert !Alpha("co\n"[2]);
  }

  /** Both accept the same strings apart from that trailing newline. */
  lemma EmailAsWrittenDiffersOnlyByNewline(e: string)
    ensures EmailMatchAsWritten(e) <==>
      EmailShape(e) || (e != [] && e[|e| - 1] == '\n' && EmailShape(e[..|e| - 1]))
  {
    ValidateEmailIffShape(e);
    if e != [] {
      ValidateEmailIffShape(e[..|e| - 1]);
    }
  }

  // ---------------------------------------------------------------------
  // Required fields of validate_json

  /** `[field for field in required if field not in data]`. */
  function MissingFields(required: seq<string>, body: Body): (missing: seq<string>)
    ensures forall f :: f in missing <==> f in required && f !in body
    ensures |missing| <= |required|
  {
    if required == [] then []
    else (if required[0] in body then [] else [required[0]]) + MissingFields(required[1..], body)
  }

  /** The missing list keeps the order of the required list: it is computed
      piecewise over any split of that list. */
  lemma {:induction false} MissingFieldsSplit(a: seq<string>, b: seq<string>, body: Body)
    ensures MissingFields(a + b, body) == MissingFields(a, body) + MissingFields(b, body)
  {
    if a == [] {
      assert a + b == b;
    } else {
      assert (a + b)[1..] == a[1..] + b;
      MissingFieldsSplit(a[1..], b, body);
    }
  }

  const NotJson := "Content-Type must be application/json"

  /** The wrapper built by `validate_json(required)`: 415 for a non-JSON request,
      400 naming the missing fields, otherwise what the wrapped view returns. */
  function ValidateJson(required: seq<string>, isJson: bool, body: Body, view: Reply): (r: Reply)
    ensures !isJson ==> r == ErrorReply(415, NotJson)
    ensures isJson && (forall f :: f in required ==> f in body) ==> r == view
    ensures isJson && (exists f :: f in required && f !in body) ==>
      r == ErrorReply(400, "Missing fields: " + Join(MissingFields(required, body), ", "))
  {
    if !isJson then ErrorReply(415, NotJson)
    else
      var missing := MissingFields(required, body);
      assert missing != [] ==> missing[0] in missing;
      if missing != [] then ErrorReply(400, "Missing fields: " + Join(missing, ", "))
      else view
  }
}
