/** String helpers with the meaning JavaScript gives them. */
module Text {
  import opened Wrappers

  const CRLF: string := "\r\n"

  /** `xs.join(sep)` on an array of strings: `[]` gives "", `[a]` gives `a`. */
  function Join(xs: seq<string>, sep: string): string
  {
    if |xs| == 0 then ""
    else if |xs| == 1 then xs[0]
    else xs[0] + sep + Join(xs[1..], sep)
  }

  /** Joining two non-empty arrays is joining each and gluing with one more separator. */
  lemma {:induction false} JoinConcat(xs: seq<string>, ys: seq<string>, sep: string)
    requires |xs| > 0 && |ys| > 0
    ensures Join(xs + ys, sep) == Join(xs, sep) + sep + Join(ys, sep)
  {
    if |xs| == 1 {
      assert (xs + ys)[1..] == ys;
    } else {
      assert (xs + ys)[1..] == xs[1..] + ys;
      JoinConcat(xs[1..], ys, sep);
    }
  }

  /** `a.join(sep) + sep + sep + b.join(sep)` is the join of both with an empty line between. */
  lemma JoinAroundBlankLine(a: seq<string>, b: seq<string>, sep: string)
    requires |a| > 0 && |b| > 0
    ensures Join(a, sep) + sep + sep + Join(b, sep) == Join(a + [""] + b, sep)
  {
    var e: seq<string> := [""];
    assert a + e + b == a + (e + b);
    JoinConcat(a, e + b, sep);
    JoinConcat(e, b, sep);
    assert Join(e, sep) == "";
  }

  predicate NoCR(s: string) {
    '\r' !in s
  }

  /** Joining CR-free strings with a CR-free separator leaves no CR. */
  lemma {:induction false} JoinKeepsNoCR(xs: seq<string>, sep: string)
    requires NoCR(sep)
    requires forall i :: 0 <= i < |xs| ==> NoCR(xs[i])
    ensures NoCR(Join(xs, sep))
  {
    if |xs| > 1 {
      JoinKeepsNoCR(xs[1..], sep);
    }
  }

  /** Splits `s` at every CRLF; a reader of an RFC 5322 message does this to find its lines. */
  function SplitLines(s: string): (lines: seq<string>)
    ensures |lines| >= 1
    decreases |s|
  {
    if |s| == 0 then [""]
    else if |s| >= 2 && s[0] == '\r' && s[1] == '\n' then [""] + SplitLines(s[2..])
    else
      var rest := SplitLines(s[1..]);
      [[s[0]] + rest[0]] + rest[1..]
  }

  lemma {:induction false} SplitLinesPrefix(a: string, t: string)
    requires NoCR(a)
    ensures SplitLines(a + t) == [a + SplitLines(t)[0]] + SplitLines(t)[1..]
  {
    if |a| == 0 {
      var lines := SplitLines(t);
      assert a + t == t && a + lines[0] == lines[0];
      assert [lines[0]] + lines[1..] == lines;
    } else {
      assert (a + t)[1..] == a[1..] + t;
      assert a[0] == (a + t)[0] && a[0] != '\r';
      SplitLinesPrefix(a[1..], t);
      assert [a[0]] + (a[1..] + SplitLines(t)[0]) == a + SplitLines(t)[0];
    }
  }

  lemma SplitAfterCRLF(t: string)
    ensures SplitLines(CRLF + t) == [""] + SplitLines(t)
  {
    assert (CRLF + t)[2..] == t;
  }

  lemma JoinCons(xs: seq<string>, sep: string)
    requires |xs| >= 2
    ensures Join(xs, sep) == xs[0] + (sep + Join(xs[1..], sep))
  {
  }

  lemma ConsLines(x: string, rest: seq<string>, r: seq<string>)
    requires r == [""] + rest
    ensures [x + r[0]] + r[1..] == [x] + rest
  {
    assert x + "" == x;
  }

  lemma HeadTail<T>(xs: seq<T>)
    requires |xs| > 0
    ensures [xs[0]] + xs[1..] == xs
  {
  }

  lemma SplitJoinStep(xs: seq<string>)
    requires |xs| >= 2 && NoCR(xs[0])
    requires SplitLines(Join(xs[1..], CRLF)) == xs[1..]
    ensures SplitLines(Join(xs, CRLF)) == xs
  {
    var t := Join(xs[1..], CRLF);
    JoinCons(xs, CRLF);
    SplitAfterCRLF(t);
    SplitLinesPrefix(xs[0], CRLF + t);
    ConsLines(xs[0], xs[1..], SplitLines(CRLF + t));
    HeadTail(xs);
  }


  /** Splitting at CRLF undoes joining with CRLF, provided no line holds a CR of its own. */
  lemma {:induction false} SplitJoin(xs: seq<string>)
    requires |xs| >= 1
    requires forall i :: 0 <= i < |xs| ==> NoCR(xs[i])
    ensures SplitLines(Join(xs, CRLF)) == xs
  {
    if |xs| == 1 {
      SplitLinesPrefix(xs[0], "");
      assert xs[0] + "" == xs[0];
    } else {
      SplitJoin(xs[1..]);
      SplitJoinStep(xs);
    }
  }

  predicate StartsWith(s: string, prefix: string) {
    |prefix| <= |s| && s[..|prefix|] == prefix
  }

  /** `s.includes(sub)`. */
  predicate Contains(s: string, sub: string)
    decreases |s|
  {
    StartsWith(s, sub) || (|s| > 0 && Contains(s[1..], sub))
  }

  /** `s.indexOf(c)`, with -1 written as None. */
  function IndexOf(s: string, c: char): (r: Option<nat>)
    ensures r.Some? ==> r.value < |s| && s[r.value] == c && c !in s[..r.value]
    ensures r.None? ==> c !in s
  {
    if |s| == 0 then None
    else if s[0] == c then Some(0)
    else match IndexOf(s[1..], c)
      case None => None
      case Some(k) => Some(k + 1)
  }

  /** ASCII lower-casing of one character. */
  function LowerChar(c: char): char {
    if 'A' <= c <= 'Z' then (c as int + 32) as char else c
  }

  function Lower(s: string): string {
    seq(|s|, i requires 0 <= i < |s| => LowerChar(s[i]))
  }
}
