/**
 * Input checks of the send tools (src/validation.js): the address shape test of
 * `validateEmailAddresses` and the field constraints of `EmailValidationSchema`.
 */
module Validation {
  import opened Wrappers
  import opened Text
  import opened Mail

  // ---------------------------------------------------------------------------------------
  // The address shape /^[^\s@]+@[^\s@]+\.[^\s@]+$/

  /** The characters JavaScript's `\s` matches. */
  predicate IsJsWhitespace(c: char) {
    var n := c as int;
    (0x09 <= n <= 0x0D) || n == 0x20 || n == 0xA0 || n == 0x1680 || (0x2000 <= n <= 0x200A)
    || n == 0x2028 || n == 0x2029 || n == 0x202F || n == 0x205F || n == 0x3000 || n == 0xFEFF
  }

  /** A run of `[^\s@]`: no whitespace and no '@'. */
  predicate Run(s: string) {
    forall i :: 0 <= i < |s| ==> !IsJsWhitespace(s[i]) && s[i] != '@'
  }

  /** `s` reads as local part, '@', domain head, '.', domain tail, each a non-empty run. */
  predicate AddressShape(s: string, local: string, head: string, tail: string) {
    |local| > 0 && |head| > 0 && |tail| > 0 && Run(local) && Run(head) && Run(tail)
    && s == local + "@" + head + "." + tail
  }

  /** What the regular expression accepts, read as a grammar. */
  ghost predicate MatchesAddressPattern(s: string) {
    exists local, head, tail :: AddressShape(s, local, head, tail)
  }

  /** The domain has a '.' with at least one character on either side. */
  predicate HasInnerDot(d: string) {
    exists k :: 1 <= k < |d| - 1 && d[k] == '.'
  }

  /** The test as the matcher decides it: split at the first '@' and look for an inner dot. */
  predicate IsValidAddress(s: string) {
    match IndexOf(s, '@')
    case None => false
    case Some(at) => at > 0 && Run(s[..at]) && Run(s[at + 1..]) && HasInnerDot(s[at + 1..])
  }

  lemma RunConcat(a: string, b: string)
    ensures Run(a + b) <==> Run(a) && Run(b)
  {
    if Run(a) && Run(b) {
      forall i | 0 <= i < |a + b| ensures !IsJsWhitespace((a + b)[i]) && (a + b)[i] != '@' {
        if i >= |a| {
          assert (a + b)[i] == b[i - |a|];
        }
      }
    }
    if Run(a + b) {
      forall i | 0 <= i < |b| ensures !IsJsWhitespace(b[i]) && b[i] != '@' {
        assert b[i] == (a + b)[|a| + i];
      }
      forall i | 0 <= i < |a| ensures !IsJsWhitespace(a[i]) && a[i] != '@' {
        assert a[i] == (a + b)[i];
      }
    }
  }

  /** A run split at an inner '.' gives two non-empty runs around it. */
  lemma SplitAtDot(d: string, k: nat)
    requires Run(d) && 1 <= k < |d| - 1 && d[k] == '.'
    ensures d == d[..k] + "." + d[k + 1..]
    ensures Run(d[..k]) && Run(d[k + 1..])
  {
    assert d == d[..k] + ("." + d[k + 1..]);
    RunConcat(d[..k], "." + d[k + 1..]);
    RunConcat(".", d[k + 1..]);
  }

  lemma ValidHasShape(s: string)
    requires IsValidAddress(s)
    ensures MatchesAddressPattern(s)
  {
    var at := IndexOf(s, '@').value;
    var d := s[at + 1..];
    var k :| 1 <= k < |d| - 1 && d[k] == '.';
    SplitAtDot(d, k);
    var local, head, tail := s[..at], d[..k], d[k + 1..];
    assert s == local + "@" + d;
    assert AddressShape(s, local, head, tail);
  }


  lemma ShapeIsValid(s: string, local: string, head: string, tail: string)
    requires AddressShape(s, local, head, tail)
    ensures IsValidAddress(s)
  {
    var d := head + "." + tail;
    assert s == local + "@" + d;
    assert s[|local|] == '@';
    assert s[..|local|] == local;
    assert s[|local| + 1..] == d;
    assert '@' !in local by {
      forall i | 0 <= i < |local| ensures local[i] != '@' {
      }
    }
    assert IndexOf(s, '@') == Some(|local|);
    RunConcat(head, "." + tail);
    RunConcat(".", tail);
    assert d[|head|] == '.';
  }

  /** The matcher accepts exactly the strings of the grammar. */
  lemma ValidIffPattern(s: string)
    ensures IsValidAddress(s) <==> MatchesAddressPattern(s)
  {
    if IsValidAddress(s) {
      ValidHasShape(s);
    }
    if MatchesAddressPattern(s) {
      var local, head, tail :| AddressShape(s, local, head, tail);
      ShapeIsValid(s, local, head, tail);
    }
  }

  // ---------------------------------------------------------------------------------------
  // validateEmailAddresses

  predicate FirstInvalid(xs: seq<string>, i: int) {
    0 <= i < |xs| && !IsValidAddress(xs[i]) && forall j :: 0 <= j < i ==> IsValidAddress(xs[j])
  }

  function FindInvalid(xs: seq<string>): (r: Option<nat>)
    ensures r.Some? ==> FirstInvalid(xs, r.value)
    ensures r.None? ==> forall j :: 0 <= j < |xs| ==> IsValidAddress(xs[j])
  {
    if xs == [] then None
    else if !IsValidAddress(xs[0]) then Some(0)
    else
      match FindInvalid(xs[1..])
      case Some(k) => Some(k + 1)
      case None => None
  }

  function InvalidAddress(a: string): string {
    "Invalid email address: " + a
  }

  /**
   * `validateEmailAddresses`: a single address is wrapped in a list; the list comes back
   * unchanged when every address is valid, and otherwise the error names the first invalid one.
   */
  function ValidateEmailAddresses(emails: Addresses): (r: Result<seq<string>, string>)
    ensures r.Success? <==> forall j :: 0 <= j < |AsList(emails)| ==> IsValidAddress(AsList(emails)[j])
    ensures r.Success? ==> r.value == AsList(emails)
    ensures r.Failure? ==>
      exists i :: FirstInvalid(AsList(emails), i) && r.error == InvalidAddress(AsList(emails)[i])
  {
    var xs := AsList(emails);
    match FindInvalid(xs)
    case None => Success(xs)
    case Some(i) => Failure(InvalidAddress(xs[i]))
  }

  /** One address is a one-element list: accepted as `[a]` when it has the shape, else named in the error. */
  lemma SingleAddress(a: string)
    ensures MatchesAddressPattern(a) ==> ValidateEmailAddresses(One(a)) == Success([a])
    ensures !MatchesAddressPattern(a) ==> ValidateEmailAddresses(One(a)) == Failure(InvalidAddress(a))
  {
    ValidIffPattern(a);
    assert AsList(One(a)) == [a];
    if !IsValidAddress(a) {
      assert FirstInvalid([a], 0);
    }
  }

  // ---------------------------------------------------------------------------------------
  // EmailValidationSchema

  /** `String.prototype.length`: UTF-16 code units, two for a character beyond U+FFFF. */
  function JsLength(s: string): nat {
    if s == [] then 0 else (if s[0] as int >= 0x10000 then 2 else 1) + JsLength(s[1..])
  }

  lemma {:induction false} JsLengthBounds(s: string)
    ensures |s| <= JsLength(s) <= 2 * |s|
    ensures (forall i :: 0 <= i < |s| ==> (s[i] as int) < 0x10000) ==> JsLength(s) == |s|
  {
    if s != [] {
      JsLengthBounds(s[1..]);
    }
  }

  /** The arguments of send_email / draft_email as they arrive; absent fields are None. */
  datatype SendArgs = SendArgs(
    to: Option<Addresses>,
    subject: Option<string>,
    body: Option<string>,
    cc: Option<Addresses>,
    bcc: Option<Addresses>,
    html: Option<bool>,
    attachments: Option<seq<string>>)

  /** A step of an issue's path: an object key or an array index. */
  datatype PathSegment = Key(name: string) | Index(i: nat)

  datatype Issue = Issue(path: seq<PathSegment>, message: string)

  const MaxSubjectLength: nat := 998

  /** Every address passes the email check (`isEmail` stands for the schema's `.email()`). */
  predicate AddressesPass(a: Addresses, isEmail: string -> bool) {
    forall j :: 0 <= j < |AsList(a)| ==> isEmail(AsList(a)[j])
  }

  /** The issues of the array option: one "Invalid email" per failing element from `i` on, at its index. */
  function ElementIssues(field: string, xs: seq<string>, isEmail: string -> bool, i: nat): seq<Issue>
    decreases |xs| - i
  {
    if i >= |xs| then []
    else
      (if isEmail(xs[i]) then [] else [Issue([Key(field), Index(i)], "Invalid email")])
      + ElementIssues(field, xs, isEmail, i + 1)
  }

  /**
   * The issues of a `z.union([z.string().email(), z.array(z.string().email())])` field. A missing
   * value fails both options on its type, which the union reports as "Invalid input"; otherwise the
   * one option of the right type reports its failed email checks.
   */
  function AddressIssues(field: string, a: Option<Addresses>, required: bool, isEmail: string -> bool): seq<Issue> {
    match a
    case None => if required then [Issue([Key(field)], "Invalid input")] else []
    case Some(One(x)) => if isEmail(x) then [] else [Issue([Key(field)], "Invalid email")]
    case Some(Many(xs)) => ElementIssues(field, xs, isEmail, 0)
  }

  function SubjectIssues(subject: Option<string>): seq<Issue> {
    match subject
    case None => [Issue([Key("subject")], "Required")]
    case Some(s) =>
      if JsLength(s) < 1 then [Issue([Key("subject")], "Subject cannot be empty")]
      else if JsLength(s) > MaxSubjectLength then [Issue([Key("subject")], "Subject too long")]
      else []
  }

  function BodyIssues(body: Option<string>): seq<Issue> {
    match body
    case None => [Issue([Key("body")], "Required")]
    case Some(b) => if JsLength(b) < 1 then [Issue([Key("body")], "Body cannot be empty")] else []
  }

  /** All the issues of the arguments, field by field in schema order. */
  function Issues(args: SendArgs, isEmail: string -> bool): seq<Issue> {
    AddressIssues("to", args.to, true, isEmail)
    + SubjectIssues(args.subject)
    + BodyIssues(args.body)
    + AddressIssues("cc", args.cc, false, isEmail)
    + AddressIssues("bcc", args.bcc, false, isEmail)
  }

  /** The constraints of the schema, stated on their own. */
  predicate SchemaHolds(args: SendArgs, isEmail: string -> bool) {
    && args.to.Some? && AddressesPass(args.to.value, isEmail)
    && args.subject.Some? && 1 <= JsLength(args.subject.value) <= MaxSubjectLength
    && args.body.Some? && args.body.value != ""
    && (args.cc.Some? ==> AddressesPass(args.cc.value, isEmail))
    && (args.bcc.Some? ==> AddressesPass(args.bcc.value, isEmail))
  }

  /**
   * `EmailValidationSchema.parse`: the request when no field breaks a constraint, `html`
   * defaulting to false; otherwise every issue found.
   */
  function ParseSendArgs(args: SendArgs, isEmail: string -> bool): (r: Result<ComposeRequest, seq<Issue>>)
    ensures r.Failure? ==> |r.error| > 0
  {
    var issues := Issues(args, isEmail);
    if issues == [] then
      Success(ComposeRequest(args.to.value, args.subject.value, args.body.value, args.cc, args.bcc,
        args.html.GetOr(false), args.attachments))
    else Failure(issues)
  }

  /** The element issues from `i` on are exactly the failing elements from `i` on, at their indices. */
  lemma {:induction false} ElementIssuesExact(field: string, xs: seq<string>, isEmail: string -> bool, i: nat, e: Issue)
    ensures e in ElementIssues(field, xs, isEmail, i) <==>
      e.message == "Invalid email" && exists j :: i <= j < |xs| && !isEmail(xs[j]) && e.path == [Key(field), Index(j)]
    decreases |xs| - i
  {
    if i < |xs| {
      ElementIssuesExact(field, xs, isEmail, i + 1, e);
      var here := if isEmail(xs[i]) then [] else [Issue([Key(field), Index(i)], "Invalid email")];
      assert ElementIssues(field, xs, isEmail, i) == here + ElementIssues(field, xs, isEmail, i + 1);
      assert e in here <==> !isEmail(xs[i]) && e == Issue([Key(field), Index(i)], "Invalid email");
      if e.message == "Invalid email" && e.path == [Key(field), Index(i)] {
        assert e.path[1] == Index(i);
      }
    }
  }

  /** No element issue from `i` on exactly when every element from `i` on passes. */
  lemma {:induction false} ElementIssuesNone(field: string, xs: seq<string>, isEmail: string -> bool, i: nat)
    ensures ElementIssues(field, xs, isEmail, i) == [] <==> forall j :: i <= j < |xs| ==> isEmail(xs[j])
    decreases |xs| - i
  {
    if i < |xs| {
      ElementIssuesNone(field, xs, isEmail, i + 1);
    }
  }

  /**
   * The issues of an address field: none exactly when the field is present with every address
   * passing, or absent and optional; a missing required field gives "Invalid input" at the
   * field; a failing single address gives "Invalid email" at the field; a list gives one
   * "Invalid email" at the index of each failing element.
   */
  lemma AddressIssuesOf(field: string, a: Option<Addresses>, required: bool, isEmail: string -> bool)
    ensures AddressIssues(field, a, required, isEmail) == [] <==>
      if a.Some? then AddressesPass(a.value, isEmail) else !required
    ensures a.None? && required ==> AddressIssues(field, a, required, isEmail) == [Issue([Key(field)], "Invalid input")]
    ensures a.Some? && a.value.One? && !isEmail(a.value.address) ==>
      AddressIssues(field, a, required, isEmail) == [Issue([Key(field)], "Invalid email")]
    ensures a.Some? && a.value.Many? ==> forall e ::
      e in AddressIssues(field, a, required, isEmail) <==>
      e.message == "Invalid email" &&
      exists j :: 0 <= j < |a.value.addresses| && !isEmail(a.value.addresses[j]) && e.path == [Key(field), Index(j)]
  {
    if a.Some? && a.value.Many? {
      var xs := a.value.addresses;
      forall e ensures e in ElementIssues(field, xs, isEmail, 0) <==>
        e.message == "Invalid email" && exists j :: 0 <= j < |xs| && !isEmail(xs[j]) && e.path == [Key(field), Index(j)]
      {
        ElementIssuesExact(field, xs, isEmail, 0, e);
      }
      ElementIssuesNone(field, xs, isEmail, 0);
      assert AsList(a.value) == xs;
    } else if a.Some? {
      assert AsList(a.value) == [a.value.address];
      if isEmail(a.value.address) {
        assert forall j :: 0 <= j < |AsList(a.value)| ==> AsList(a.value)[j] == a.value.address;
      } else {
        assert !isEmail(AsList(a.value)[0]);
      }
    }
  }

  lemma BodyLengthPositive(b: string)
    ensures JsLength(b) >= 1 <==> b != ""
  {
    JsLengthBounds(b);
  }

  /**
   * The schema accepts exactly the arguments meeting its constraints, and then passes every
   * field through, with `html` false when it was omitted.
   */
  lemma ParseAcceptsExactlySchema(args: SendArgs, isEmail: string -> bool)
    ensures ParseSendArgs(args, isEmail).Success? <==> SchemaHolds(args, isEmail)
    ensures ParseSendArgs(args, isEmail).Success? ==>
      var req := ParseSendArgs(args, isEmail).value;
      && Some(req.to) == args.to && Some(req.subject) == args.subject && Some(req.body) == args.body
      && req.cc == args.cc && req.bcc == args.bcc && req.attachments == args.attachments
      && (req.html <==> args.html == Some(true))
  {
    if args.body.Some? {
      BodyLengthPositive(args.body.value);
    }
    AddressIssuesOf("to", args.to, true, isEmail);
    AddressIssuesOf("cc", args.cc, false, isEmail);
    AddressIssuesOf("bcc", args.bcc, false, isEmail);
  }

  /**
   * A subject is too long when it is over 998 UTF-16 units: certainly when it has more than
   * 998 characters, never when it has at most 499.
   */
  lemma SubjectLengthBounds(s: string)
    ensures |s| > MaxSubjectLength ==> SubjectIssues(Some(s)) == [Issue([Key("subject")], "Subject too long")]
    ensures 1 <= |s| <= MaxSubjectLength / 2 ==> SubjectIssues(Some(s)) == []
    ensures s == "" ==> SubjectIssues(Some(s)) == [Issue([Key("subject")], "Subject cannot be empty")]
  {
    JsLengthBounds(s);
  }
}
