/** `submitContactForm`: sanitise the three fields, require them, check the e-mail against
    `/^[^\s@]+@[^\s@]+\.[^\s@]+$/`, and record a lead with fixed defaults. */
module Contact {
  import opened Wrappers
  import opened Store

  // ---------------------------------------------------------------------------------
  // Whitespace, trimming and truncation

  /** The characters ECMAScript counts as white space or line terminators: those that
      `String.prototype.trim` removes and that `\s` matches. */
  predicate IsJsWhitespace(ch: char) {
    var u := ch as int;
    || 0x09 <= u <= 0x0D                 // tab, line feed, vertical tab, form feed, carriage return
    || u == 0x20 || u == 0xA0 || u == 0x1680
    || 0x2000 <= u <= 0x200A
    || u == 0x2028 || u == 0x2029        // line and paragraph separators
    || u == 0x202F || u == 0x205F || u == 0x3000
    || u == 0xFEFF                       // byte order mark
  }

  predicate AllWhitespace(s: string) {
    forall i :: 0 <= i < |s| ==> IsJsWhitespace(s[i])
  }

  /** Drops leading white space: what remains is a suffix of `s` that starts with a
      non-white-space character, and everything dropped was white space. */
  function TrimStart(s: string): (r: string)
    ensures |r| <= |s| && r == s[|s| - |r|..]
    ensures AllWhitespace(s[..|s| - |r|])
    ensures |r| == 0 || !IsJsWhitespace(r[0])
    decreases |s|
  {
    if |s| > 0 && IsJsWhitespace(s[0]) then
      var r := TrimStart(s[1..]);
      assert s[1..][..|s| - 1 - |r|] == s[1..|s| - |r|];
      r
    else s
  }

  /** Drops trailing white space: what remains is a prefix of `s` that ends with a
      non-white-space character, and everything dropped was white space. */
  function TrimEnd(s: string): (r: string)
    ensures |r| <= |s| && r == s[..|r|]
    ensures AllWhitespace(s[|r|..])
    ensures |r| == 0 || !IsJsWhitespace(r[|r| - 1])
    decreases |s|
  {
    if |s| > 0 && IsJsWhitespace(s[|s| - 1]) then
      var r := TrimEnd(s[..|s| - 1]);
      assert s[..|s| - 1][|r|..] == s[|r|..|s| - 1];
      r
    else s
  }

  /** `r` is the infix of `s` starting at `i`, with only white space around it. */
  predicate TrimmedInfix(s: string, r: string, i: int) {
    && 0 <= i <= |s| - |r|
    && r == s[i..i + |r|]
    && AllWhitespace(s[..i])
    && AllWhitespace(s[i + |r|..])
  }

  /** `trim()`: the infix of `s` left after removing white space at both ends. */
  function Trim(s: string): (r: string)
    ensures |r| <= |s|
    ensures exists i :: TrimmedInfix(s, r, i)
    ensures |r| == 0 || (!IsJsWhitespace(r[0]) && !IsJsWhitespace(r[|r| - 1]))
  {
    var t := TrimStart(s);
    var r := TrimEnd(t);
    var i := |s| - |t|;
    assert r == s[i..i + |r|];
    assert s[i + |r|..] == t[|r|..];
    assert TrimmedInfix(s, r, i);
    r
  }

  lemma {:induction false} TrimStartPadding(w: string, x: string)
    requires AllWhitespace(w)
    requires |x| == 0 || !IsJsWhitespace(x[0])
    ensures TrimStart(w + x) == x
    decreases |w|
  {
    if |w| > 0 {
      assert (w + x)[1..] == w[1..] + x;
      TrimStartPadding(w[1..], x);
    } else {
      assert w + x == x;
    }
  }

  lemma {:induction false} TrimEndPadding(x: string, w: string)
    requires AllWhitespace(w)
    requires |x| == 0 || !IsJsWhitespace(x[|x| - 1])
    ensures TrimEnd(x + w) == x
    decreases |w|
  {
    if |w| > 0 {
      assert (x + w)[..|x + w| - 1] == x + w[..|w| - 1];
      TrimEndPadding(x, w[..|w| - 1]);
    } else {
      assert x + w == x;
    }
  }

  /** Trimming strips exactly the white space around a text that neither starts nor ends
      with white space. */
  lemma TrimRemovesPadding(lead: string, x: string, trail: string)
    requires AllWhitespace(lead) && AllWhitespace(trail)
    requires |x| > 0 && !IsJsWhitespace(x[0]) && !IsJsWhitespace(x[|x| - 1])
    ensures Trim(lead + x + trail) == x
  {
    assert lead + x + trail == lead + (x + trail);
    TrimStartPadding(lead, x + trail);
    TrimEndPadding(x, trail);
  }

  /** Trimming twice is trimming once. */
  lemma TrimIdempotent(s: string)
    ensures Trim(Trim(s)) == Trim(s)
  {
  }

  /** `slice(0, n)`: the first `n` characters, or all of them when there are fewer. */
  function Truncate(s: string, n: nat): (r: string)
    ensures |r| == if |s| <= n then |s| else n
    ensures r == s[..|r|]
  {
    if |s| <= n then s else s[..n]
  }

  /** `(formData.get(field) as string)?.trim().slice(0, limit)`, with a missing field read as
      the empty text (both are falsy). */
  function Sanitise(field: Option<string>, limit: nat): (r: string)
    ensures |r| <= limit
    ensures field.Some? ==> |r| <= |Trim(field.value)| && r == Trim(field.value)[..|r|]
    ensures field.Some? && |Trim(field.value)| <= limit ==> r == Trim(field.value)
    ensures field.Some? ==> |r| == if |Trim(field.value)| <= limit then |Trim(field.value)| else limit
    ensures field.None? ==> r == ""
  {
    match field
    case None => ""
    case Some(s) => Truncate(Trim(s), limit)
  }

  // ---------------------------------------------------------------------------------
  // The e-mail pattern

  /** `[^\s@]`. */
  predicate PatternChar(ch: char) {
    !IsJsWhitespace(ch) && ch != '@'
  }

  /** `[^\s@]+`. */
  predicate PatternRun(s: string) {
    |s| > 0 && forall i :: 0 <= i < |s| ==> PatternChar(s[i])
  }

  /** `/^[^\s@]+@[^\s@]+\.[^\s@]+$/.test(e)`: `e` splits at an `@` (index `a`) and a later
      `.` (index `d`) into three non-empty runs free of white space and `@`. */
  predicate MatchesEmailPattern(e: string) {
    exists a, d :: 0 <= a < |e| && 0 <= d < |e| && a + 1 < d
      && e[a] == '@' && e[d] == '.'
      && PatternRun(e[..a]) && PatternRun(e[a + 1..d]) && PatternRun(e[d + 1..])
  }

  predicate NoWhitespace(e: string) {
    forall i :: 0 <= i < |e| ==> !IsJsWhitespace(e[i])
  }

  /** `a` is the index of the only `@` of `e`. */
  predicate SoleAtSign(e: string, a: int) {
    0 <= a < |e| && e[a] == '@' && forall i :: 0 <= i < |e| && e[i] == '@' ==> i == a
  }

  /** `d` has a `.` with at least one character on each side. */
  predicate HasInnerDot(d: string) {
    exists j :: 0 < j < |d| - 1 && d[j] == '.'
  }

  /** The accepted addresses in plain words: no white space, exactly one `@` with text
      before it, and a `.` after it with text on both sides. */
  predicate WellFormedEmail(e: string) {
    NoWhitespace(e) && exists a :: 0 < a < |e| && SoleAtSign(e, a) && HasInnerDot(e[a + 1..])
  }

  lemma PatternMatchIsWellFormed(e: string)
    requires MatchesEmailPattern(e)
    ensures WellFormedEmail(e)
  {
    var a, d :| 0 <= a < |e| && 0 <= d < |e| && a + 1 < d
      && e[a] == '@' && e[d] == '.'
      && PatternRun(e[..a]) && PatternRun(e[a + 1..d]) && PatternRun(e[d + 1..]);
    forall i | 0 <= i < |e|
      ensures !IsJsWhitespace(e[i]) && (e[i] == '@' ==> i == a)
    {
      if i < a {
        assert e[..a][i] == e[i];
      } else if a < i < d {
        assert e[a + 1..d][i - a - 1] == e[i];
      } else if d < i {
        assert e[d + 1..][i - d - 1] == e[i];
      }
    }
    assert e[a + 1..][d - a - 1] == '.';
    assert SoleAtSign(e, a);
  }

  lemma WellFormedMatchesPattern(e: string)
    requires WellFormedEmail(e)
    ensures MatchesEmailPattern(e)
  {
    var a :| 0 < a < |e| && SoleAtSign(e, a) && HasInnerDot(e[a + 1..]);
    var j :| 0 < j < |e[a + 1..]| - 1 && e[a + 1..][j] == '.';
    var d := a + 1 + j;
    assert e[d] == '.';
    forall i | 0 <= i < |e| && i != a
      ensures PatternChar(e[i])
    {
    }
    assert PatternRun(e[..a]);
    assert PatternRun(e[a + 1..d]);
    assert PatternRun(e[d + 1..]);
  }

  /** The pattern accepts exactly the well-formed addresses. */
  lemma EmailPatternCharacterised(e: string)
    ensures MatchesEmailPattern(e) <==> WellFormedEmail(e)
  {
    if MatchesEmailPattern(e) {
      PatternMatchIsWellFormed(e);
    }
    if WellFormedEmail(e) {
      WellFormedMatchesPattern(e);
    }
  }

  // ---------------------------------------------------------------------------------
  // The action

  const NameLimit: nat := 100
  const EmailLimit: nat := 255
  const MessageLimit: nat := 5000

  datatype ContactForm = ContactForm(name: Option<string>, email: Option<string>, message: Option<string>)

  /** A row of the project leads table. */
  datatype Lead = Lead(
    fullName: string, email: string, description: string,
    projectType: string, budget: string, timeline: string, status: string)

  datatype ContactOutcome =
    | Sent
    | ConfigurationFailed
    | MissingFields
    | InvalidEmail
    | InsertFailed(message: string)
    | Unexpected

  /** The `ContactState` object the action returns. */
  datatype ContactState = ContactState(error: Option<string>, success: bool, message: Option<string>)

  function StateOf(o: ContactOutcome): (st: ContactState)
    ensures st.success <==> o == Sent
    ensures st.success <==> st.error.None?
  {
    match o
    case Sent => ContactState(None, true, Some("Message sent successfully!"))
    case ConfigurationFailed =>
      ContactState(Some("System configuration error. Connection to signal tower failed."), false, None)
    case MissingFields => ContactState(Some("Please fill in all required fields."), false, None)
    case InvalidEmail => ContactState(Some("Please provide a valid email address."), false, None)
    case InsertFailed(m) =>
      ContactState(Some("Error: " + (if m == "" then "Unknown error" else m)), false, None)
    case Unexpected => ContactState(Some("An unexpected error occurred."), false, None)
  }

  datatype Submission = Submission(outcome: ContactOutcome, leads: seq<Lead>)

  /** `submitContactForm(prevState, formData)` against the leads table `leads`; `configured`
      and `reply` are the store client's answers. */
  function SubmitContactForm(configured: bool, form: ContactForm, leads: seq<Lead>, reply: InsertReply): (r: Submission)
    ensures !configured ==> r == Submission(ConfigurationFailed, leads)
    ensures r.outcome == ConfigurationFailed <==> !configured
    ensures var name := Sanitise(form.name, NameLimit);
      var email := Sanitise(form.email, EmailLimit);
      var message := Sanitise(form.message, MessageLimit);
      && (r.outcome == MissingFields <==> configured && (name == "" || email == "" || message == ""))
      && (r.outcome == InvalidEmail <==>
            configured && name != "" && email != "" && message != "" && !WellFormedEmail(email))
      && (r.outcome == Sent <==>
            configured && name != "" && email != "" && message != "" && WellFormedEmail(email)
            && reply == Inserted)
      && (configured && name != "" && email != "" && message != "" && WellFormedEmail(email) ==>
            && (forall m :: reply == Rejected(m) ==> r.outcome == InsertFailed(m))
            && (reply == Threw ==> r.outcome == Unexpected))
      && (r.outcome == Sent ==>
            r.leads == leads + [Lead(name, email, message, "other", "unknown", "flexible", "new")])
    ensures r.outcome != Sent ==> r.leads == leads
  {
    if !configured then Submission(ConfigurationFailed, leads)
    else
      var name := Sanitise(form.name, NameLimit);
      var email := Sanitise(form.email, EmailLimit);
      var message := Sanitise(form.message, MessageLimit);
      if name == "" || email == "" || message == "" then Submission(MissingFields, leads)
      else
        EmailPatternCharacterised(email);
        if !MatchesEmailPattern(email) then Submission(InvalidEmail, leads)
        else match reply
          case Inserted =>
            Submission(Sent, leads + [Lead(name, email, message, "other", "unknown", "flexible", "new")])
          case Rejected(m) => Submission(InsertFailed(m), leads)
          case Threw => Submission(Unexpected, leads)
  }
}
