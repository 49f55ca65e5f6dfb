/**
 * `sanitizeEmailContent` (src/validation.js): line-ending normalisation for plain text, and
 * removal of `<script>` and `<iframe>` blocks for HTML, each as the global regular-expression
 * replacement the code performs.
 */
module Sanitize {
  import opened Wrappers
  import opened Text

  // ---------------------------------------------------------------------------------------
  // Plain text: .replace(/\r\n/g, '\n').replace(/\r/g, '\n')

  /** Replaces every CRLF, scanning left to right, by LF. */
  function ReplaceCRLF(s: string): string
    decreases |s|
  {
    if |s| == 0 then ""
    else if |s| >= 2 && s[0] == '\r' && s[1] == '\n' then "\n" + ReplaceCRLF(s[2..])
    else [s[0]] + ReplaceCRLF(s[1..])
  }

  /** Replaces every remaining CR by LF. */
  function ReplaceCR(s: string): string {
    seq(|s|, i requires 0 <= i < |s| => if s[i] == '\r' then '\n' else s[i])
  }

  function SanitizePlain(s: string): string {
    ReplaceCR(ReplaceCRLF(s))
  }

  /** Line endings normalised in one pass: a CRLF or a lone CR each become one LF. */
  function NormaliseLineEnds(s: string): string
    decreases |s|
  {
    if |s| == 0 then ""
    else if |s| >= 2 && s[0] == '\r' && s[1] == '\n' then "\n" + NormaliseLineEnds(s[2..])
    else if s[0] == '\r' then "\n" + NormaliseLineEnds(s[1..])
    else [s[0]] + NormaliseLineEnds(s[1..])
  }

  lemma ReplaceCRConcat(a: string, b: string)
    ensures ReplaceCR(a + b) == ReplaceCR(a) + ReplaceCR(b)
  {
  }

  /** The two chained replacements are the one-pass normalisation. */
  lemma {:induction false} SanitizePlainNormalises(s: string)
    ensures SanitizePlain(s) == NormaliseLineEnds(s)
    decreases |s|
  {
    if |s| >= 2 && s[0] == '\r' && s[1] == '\n' {
      SanitizePlainNormalises(s[2..]);
      ReplaceCRConcat("\n", ReplaceCRLF(s[2..]));
    } else if |s| > 0 {
      SanitizePlainNormalises(s[1..]);
      ReplaceCRConcat([s[0]], ReplaceCRLF(s[1..]));
    }
  }

  lemma {:induction false} NormalisedHasNoCR(s: string)
    ensures NoCR(NormaliseLineEnds(s))
    decreases |s|
  {
    if |s| >= 2 && s[0] == '\r' && s[1] == '\n' {
      NormalisedHasNoCR(s[2..]);
    } else if |s| > 0 {
      NormalisedHasNoCR(s[1..]);
    }
  }

  lemma {:induction false} NormaliseIdentityWithoutCR(s: string)
    requires NoCR(s)
    ensures NormaliseLineEnds(s) == s
    decreases |s|
  {
    if |s| > 0 {
      assert s[0] in s;
      assert forall c :: c in s[1..] ==> c in s;
      NormaliseIdentityWithoutCR(s[1..]);
    }
  }

  /**
   * Plain-text sanitising leaves no CR, changes nothing in text without one, and is
   * idempotent.
   */
  lemma SanitizePlainProperties(s: string)
    ensures NoCR(SanitizePlain(s))
    ensures NoCR(s) ==> SanitizePlain(s) == s
    ensures SanitizePlain(SanitizePlain(s)) == SanitizePlain(s)
  {
    SanitizePlainNormalises(s);
    NormalisedHasNoCR(s);
    var t := SanitizePlain(s);
    SanitizePlainNormalises(t);
    NormaliseIdentityWithoutCR(t);
    if NoCR(s) {
      NormaliseIdentityWithoutCR(s);
    }
  }

  /** Only line ends change: every character other than CR and LF keeps its order. */
  lemma {:induction false} NormaliseKeepsOtherText(s: string)
    ensures Drop(NormaliseLineEnds(s)) == Drop(s)
    decreases |s|
  {
    if |s| >= 2 && s[0] == '\r' && s[1] == '\n' {
      NormaliseKeepsOtherText(s[2..]);
      assert Drop(s) == Drop(s[1..]) && s[1..][1..] == s[2..];
    } else if |s| > 0 {
      NormaliseKeepsOtherText(s[1..]);
      var rest := NormaliseLineEnds(s[1..]);
      assert s[0] == '\r' ==> Drop("\n" + rest) == Drop(rest) by {
        assert ("\n" + rest)[1..] == rest;
      }
      assert s[0] != '\r' ==> ([s[0]] + rest)[1..] == rest;
    }
  }

  /** The text without its CR and LF characters. */
  function Drop(s: string): string {
    if s == [] then "" else (if s[0] == '\r' || s[0] == '\n' then "" else [s[0]]) + Drop(s[1..])
  }

  // ---------------------------------------------------------------------------------------
  // HTML: /<tag\b[^<]*(?:(?!<\/tag>)<[^<]*)*<\/tag>/gi replaced by ""

  /** `\w`: ASCII letters, digits and '_'. */
  predicate IsWordChar(c: char) {
    ('a' <= c <= 'z') || ('A' <= c <= 'Z') || ('0' <= c <= '9') || c == '_'
  }

  /** `<tag\b` at the start of `s`, the tag name matched without regard to ASCII case. */
  predicate OpensAt(s: string, tag: string) {
    |s| >= 1 + |tag| && s[0] == '<' && Lower(s[1..1 + |tag|]) == tag
    && (|s| == 1 + |tag| || !IsWordChar(s[1 + |tag|]))
  }

  function CloseTag(tag: string): string {
    "</" + tag + ">"
  }

  /** `</tag>` at index `j` of `s`, without regard to ASCII case. */
  predicate ClosesAt(s: string, tag: string, j: int) {
    0 <= j && j + |CloseTag(tag)| <= |s| && Lower(s[j..j + |CloseTag(tag)|]) == CloseTag(tag)
  }

  /** The first `</tag>` at or after index `from`. */
  function FindClose(s: string, tag: string, from: nat): (r: Option<nat>)
    requires from <= |s|
    ensures r.Some? ==>
      from <= r.value && ClosesAt(s, tag, r.value) && forall j :: from <= j < r.value ==> !ClosesAt(s, tag, j)
    ensures r.None? ==> forall j :: from <= j <= |s| ==> !ClosesAt(s, tag, j)
    decreases |s| - from
  {
    if ClosesAt(s, tag, from) then Some(from)
    else if from == |s| then None
    else FindClose(s, tag, from + 1)
  }

  /**
   * The length of the block the pattern matches at the start of `s`: from `<tag` up to and
   * including the first `</tag>` after it, as the guarded repetition never steps over one.
   */
  function BlockLength(s: string, tag: string): (r: Option<nat>)
    ensures r.Some? ==> 0 < r.value <= |s|
  {
    if !OpensAt(s, tag) then None
    else
      match FindClose(s, tag, 1 + |tag|)
      case Some(j) => Some(j + |CloseTag(tag)|)
      case None => None
  }

  /** The global replacement: a block found at the scan position is dropped, else one character is kept. */
  function StripBlocks(s: string, tag: string): (r: string)
    ensures |r| <= |s|
    ensures Subsequence(r, s)
    decreases |s|
  {
    if |s| == 0 then ""
    else
      match BlockLength(s, tag)
      case Some(n) =>
        var r := StripBlocks(s[n..], tag);
        SuffixIsSubsequence(s, n);
        SubsequenceTrans(r, s[n..], s);
        r
      case None =>
        var r := [s[0]] + StripBlocks(s[1..], tag);
        assert r[0] == s[0] && r[1..] == StripBlocks(s[1..], tag);
        r
  }

  /** As written: one pass for script blocks, then one pass for iframe blocks. */
  function SanitizeHtml(s: string): string {
    StripBlocks(StripBlocks(s, "script"), "iframe")
  }

  /**
   * As written. Plain text comes out without CR, unchanged when it had none; HTML comes out
   * as a subsequence of the input, never longer, and unchanged exactly when it holds no
   * script or iframe block.
   */
  function SanitizeEmailContent(content: string, isHtml: bool): (r: string)
    ensures !isHtml ==> NoCR(r) && (NoCR(content) ==> r == content)
    ensures isHtml ==> Subsequence(r, content) && |r| <= |content|
    ensures isHtml ==> (r == content <==> NoBlock(content, "script") && NoBlock(content, "iframe"))
  {
    if isHtml then
      SanitizeHtmlShortens(content);
      SanitizeHtmlDeletesOnly(content);
      SanitizeHtml(content)
    else
      SanitizePlainProperties(content);
      SanitizePlain(content)
  }

  /** No block of `tag` starts anywhere in `s`. */
  predicate NoBlock(s: string, tag: string) {
    forall i :: 0 <= i < |s| ==> BlockLength(s[i..], tag).None?
  }

  /** Text in which no block starts is left as it is. */
  lemma {:induction false} StripWithoutBlock(s: string, tag: string)
    requires NoBlock(s, tag)
    ensures StripBlocks(s, tag) == s
    decreases |s|
  {
    if |s| > 0 {
      assert s[0..] == s;
      forall i | 0 <= i < |s[1..]| ensures BlockLength(s[1..][i..], tag).None? {
        assert s[1..][i..] == s[i + 1..];
      }
      StripWithoutBlock(s[1..], tag);
    }
  }

  /** Stripping that removes nothing leaves no block behind, and otherwise shortens the text. */
  lemma {:induction false} StripUnchangedMeansNoBlock(s: string, tag: string)
    ensures StripBlocks(s, tag) == s <==> NoBlock(s, tag)
    ensures StripBlocks(s, tag) != s ==> |StripBlocks(s, tag)| < |s|
    decreases |s|
  {
    if |s| > 0 {
      StripUnchangedMeansNoBlock(s[1..], tag);
      assert s[0..] == s;
      if BlockLength(s, tag).None? {
        assert [s[0]] + s[1..] == s;
        if NoBlock(s[1..], tag) {
          forall i | 0 <= i < |s| ensures BlockLength(s[i..], tag).None? {
            if i > 0 {
              assert s[i..] == s[1..][i - 1..];
            }
          }
        }
        if NoBlock(s, tag) {
          forall i | 0 <= i < |s[1..]| ensures BlockLength(s[1..][i..], tag).None? {
            assert s[1..][i..] == s[i + 1..];
          }
        }
      }
    }
  }

  lemma ConsSplit(a: string, x: string)
    requires |a| > 0
    ensures [a[0]] + (a[1..] + x) == a + x
  {
    assert [a[0]] + a[1..] == a;
  }

  lemma TailOfConcat(a: string, t: string)
    requires |a| > 0
    ensures (a + t)[0] == a[0] && (a + t)[1..] == a[1..] + t
  {
  }

  /** Text before the first '<' is kept as it is. */
  lemma {:induction false} StripKeepsPlainPrefix(a: string, t: string, tag: string)
    requires '<' !in a
    ensures StripBlocks(a + t, tag) == a + StripBlocks(t, tag)
    decreases |a|
  {
    if |a| > 0 {
      TailOfConcat(a, t);
      assert '<' !in a[1..] by {
        assert forall c :: c in a[1..] ==> c in a;
      }
      assert a[0] in a;
      KeepFirst(a + t, tag);
      StripKeepsPlainPrefix(a[1..], t, tag);
      ConsSplit(a, StripBlocks(t, tag));
    } else {
      assert a + t == t;
    }
  }

  /** A tag name as the code uses them: non-empty, lower-case ASCII letters only. */
  predicate PlainTag(tag: string) {
    |tag| > 0 && forall i :: 0 <= i < |tag| ==> 'a' <= tag[i] <= 'z'
  }

  lemma LowerOfPlain(s: string)
    requires forall i :: 0 <= i < |s| ==> !('A' <= s[i] <= 'Z')
    ensures Lower(s) == s
  {
  }

  lemma ClosesAtStartsWithLt(s: string, tag: string, j: int)
    requires ClosesAt(s, tag, j)
    ensures s[j] == '<'
  {
    assert Lower(s[j..j + |CloseTag(tag)|])[0] == LowerChar(s[j]);
  }

  lemma KeepFirst(s: string, tag: string)
    requires |s| > 0 && !OpensAt(s, tag)
    ensures StripBlocks(s, tag) == [s[0]] + StripBlocks(s[1..], tag)
  {
  }

  /** The closing tag is found at `j` when none starts between `from` and `j`. */
  lemma FirstCloseAt(s: string, tag: string, from: nat, j: nat)
    requires from <= j && ClosesAt(s, tag, j)
    requires forall k :: from <= k < j ==> !ClosesAt(s, tag, k)
    ensures FindClose(s, tag, from) == Some(j)
  {
  }

  lemma BlockLengthOf(s: string, tag: string, j: nat)
    requires OpensAt(s, tag) && FindClose(s, tag, 1 + |tag|) == Some(j)
    ensures BlockLength(s, tag) == Some(j + |CloseTag(tag)|)
  {
  }

  /** A closing tag, in any case, starts with '<' and is as long as the lower-case one. */
  lemma CloseInAnyCase(close: string, tag: string)
    requires Lower(close) == CloseTag(tag)
    ensures |close| == |CloseTag(tag)| && close[0] == '<'
  {
    assert Lower(close)[0] == LowerChar(close[0]) == '<';
  }

  /** The pieces of `<` + name + m + close + t the match depends on. */
  lemma BlockLayout(name: string, m: string, close: string, t: string)
    ensures var s := "<" + name + m + close + t; var j := 1 + |name| + |m|;
      && |s| == j + |close| + |t| && s[0] == '<' && s[1..1 + |name|] == name
      && s[j..j + |close|] == close && s[1 + |name|..j + |close|] == m + close
      && |"<" + name + m + close| == j + |close|
  {
  }

  lemma SliceOfSlice(s: string, a: nat, b: nat, x: string, i: nat, n: nat)
    requires a <= b <= |s| && s[a..b] == x && a <= i && i + n <= b
    ensures s[i..i + n] == x[i - a..i - a + n]
  {
    var y, z := s[i..i + n], x[i - a..i - a + n];
    forall q | 0 <= q < n ensures y[q] == z[q] {
      assert y[q] == s[i + q] == s[a..b][i - a + q];
    }
  }

  /** No closing tag starts in `m + close` before `close`: the first one is at `j`. */
  lemma FirstCloseInBlock(s: string, tag: string, a: nat, m: string, close: string)
    requires a + |m| + |close| <= |s| && s[a..a + |m| + |close|] == m + close && |close| == |CloseTag(tag)|
    requires forall i :: 0 <= i < |m| ==> !ClosesAt(m + close, tag, i)
    ensures forall k :: a <= k < a + |m| ==> !ClosesAt(s, tag, k)
  {
    forall k | a <= k < a + |m| ensures !ClosesAt(s, tag, k) {
      SliceOfSlice(s, a, a + |m| + |close|, m + close, k, |CloseTag(tag)|);
      assert !ClosesAt(m + close, tag, k - a);
    }
  }

  /**
   * The pieces of a block `<` + name + m + close: the name folds to the tag, `m` does not
   * continue the name and holds no closing tag, and `close` is the closing tag in any case.
   */
  predicate BlockParts(name: string, m: string, close: string, tag: string) {
    && Lower(name) == tag && Lower(close) == CloseTag(tag)
    && (|m| == 0 || !IsWordChar(m[0]))
    && forall i :: 0 <= i < |m| ==> !ClosesAt(m + close, tag, i)
  }

  /**
   * An opening tag in any case, `<` + `name` with `Lower(name) == tag`, followed by text `m` that
   * does not continue the name, then a closing tag in any case: when no closing tag starts inside
   * `m`, the pattern matches exactly up to the end of `close`.
   */
  lemma BlockAtStart(name: string, m: string, close: string, t: string, tag: string)
    requires BlockParts(name, m, close, tag)
    ensures BlockLength("<" + name + m + close + t, tag) == Some(|"<" + name + m + close|)
  {
    var s := "<" + name + m + close + t;
    var j := 1 + |name| + |m|;
    BlockLayout(name, m, close, t);
    CloseInAnyCase(close, tag);
    assert s[1 + |tag|] == (m + close)[0];
    assert OpensAt(s, tag);
    assert ClosesAt(s, tag, j);
    FirstCloseInBlock(s, tag, 1 + |tag|, m, close);
    FirstCloseAt(s, tag, 1 + |tag|, j);
    BlockLengthOf(s, tag, j);
  }

  /**
   * A block at the start of the text is removed whole, whatever the case of its tags and
   * whatever follows the tag name in the opening tag, and scanning resumes after it.
   */
  lemma StripRemovesBlock(name: string, m: string, close: string, t: string, tag: string)
    requires BlockParts(name, m, close, tag)
    ensures StripBlocks("<" + name + m + close + t, tag) == StripBlocks(t, tag)
  {
    BlockAtStart(name, m, close, t, tag);
    var s := "<" + name + m + close + t;
    assert s[|"<" + name + m + close|..] == t;
  }

  /**
   * The converse of BlockAtStart: every match has that shape. It is `<`, a name that folds to
   * the tag, text that does not continue the name and holds no closing tag, then the first
   * closing tag, in any case.
   */
  lemma BlockShape(s: string, tag: string, n: nat)
    requires BlockLength(s, tag) == Some(n)
    ensures 1 + |tag| <= n - |CloseTag(tag)| && n <= |s|
    ensures var j := n - |CloseTag(tag)|;
      && s[..n] == "<" + s[1..1 + |tag|] + s[1 + |tag|..j] + s[j..n]
      && BlockParts(s[1..1 + |tag|], s[1 + |tag|..j], s[j..n], tag)
  {
    var j := FindClose(s, tag, 1 + |tag|).value;
    assert n == j + |CloseTag(tag)|;
    var name, m, close := s[1..1 + |tag|], s[1 + |tag|..j], s[j..n];
    Pieces(s, 1 + |tag|, j, n);
    assert Lower(close) == CloseTag(tag);
    assert |m| > 0 ==> m[0] == s[1 + |tag|];
    NoCloseBefore(s, tag, 1 + |tag|, j, n, m + close);
    assert BlockParts(name, m, close, tag);
  }

  lemma Pieces(s: string, a: nat, j: nat, n: nat)
    requires 1 <= a <= j <= n <= |s| && s[0] == '<'
    ensures s[..n] == "<" + s[1..a] + s[a..j] + s[j..n] && s[a..n] == s[a..j] + s[j..n]
  {
    assert s[..n] == s[..1] + s[1..a] + s[a..j] + s[j..n];
  }

  /** Where `s` has no closing tag between `a` and `j`, neither has the slice `x` of `s` from `a`. */
  lemma NoCloseBefore(s: string, tag: string, a: nat, j: nat, n: nat, x: string)
    requires a <= j && n == j + |CloseTag(tag)| <= |s| && s[a..n] == x
    requires forall k :: a <= k < j ==> !ClosesAt(s, tag, k)
    ensures forall i :: 0 <= i < j - a ==> !ClosesAt(x, tag, i)
  {
    forall i | 0 <= i < j - a ensures !ClosesAt(x, tag, i) {
      SliceOfSlice(s, a, n, x, a + i, |CloseTag(tag)|);
      assert !ClosesAt(s, tag, a + i);
    }
  }

  lemma ClosesInSuffix(s: string, tag: string, i: nat, j: nat)
    requires i <= |s| && ClosesAt(s[i..], tag, j)
    ensures ClosesAt(s, tag, i + j)
  {
    assert s[i..][j..j + |CloseTag(tag)|] == s[i + j..i + j + |CloseTag(tag)|];
  }

  /**
   * An opening tag with no closing tag anywhere after it starts no block, and neither does any
   * later position, so the text is kept as it is.
   */
  lemma UnclosedTagKept(s: string, tag: string)
    requires OpensAt(s, tag) && FindClose(s, tag, 1 + |tag|).None?
    ensures StripBlocks(s, tag) == s
  {
    forall i | 0 <= i < |s| ensures BlockLength(s[i..], tag).None? {
      if i == 0 {
        assert s[0..] == s;
      } else if BlockLength(s[i..], tag).Some? {
        var j := FindClose(s[i..], tag, 1 + |tag|).value;
        ClosesInSuffix(s, tag, i, j);
      }
    }
    StripWithoutBlock(s, tag);
  }

  /** Text in which no block starts is kept as it is, and stripping continues after it. */
  lemma {:induction false} StripKeepsPrefixWithoutBlock(a: string, t: string, tag: string)
    requires forall i :: 0 <= i < |a| ==> BlockLength((a + t)[i..], tag).None?
    ensures StripBlocks(a + t, tag) == a + StripBlocks(t, tag)
    decreases |a|
  {
    if |a| > 0 {
      TailOfConcat(a, t);
      assert (a + t)[0..] == a + t;
      forall i | 0 <= i < |a[1..]| ensures BlockLength((a[1..] + t)[i..], tag).None? {
        assert (a[1..] + t)[i..] == (a + t)[i + 1..];
      }
      StripKeepsPrefixWithoutBlock(a[1..], t, tag);
      ConsSplit(a, StripBlocks(t, tag));
    } else {
      assert a + t == t;
    }
  }

  /**
   * The first block, found at index `i`, is removed whole: the text before it is kept, and
   * stripping resumes right after it.
   */
  lemma StripFirstBlock(s: string, tag: string, i: nat, n: nat)
    requires i <= |s| && forall k :: 0 <= k < i ==> BlockLength(s[k..], tag).None?
    requires BlockLength(s[i..], tag) == Some(n)
    ensures i + n <= |s| && StripBlocks(s, tag) == s[..i] + StripBlocks(s[i + n..], tag)
  {
    var a, t := s[..i], s[i..];
    assert a + t == s;
    StripKeepsPrefixWithoutBlock(a, t, tag);
    assert t[n..] == s[i + n..];
  }

  /** Inside text without '<' no closing tag starts. */
  lemma NoCloseWithoutLt(m: string, close: string, tag: string)
    requires '<' !in m
    ensures forall i :: 0 <= i < |m| ==> !ClosesAt(m + close, tag, i)
  {
    forall i | 0 <= i < |m| ensures !ClosesAt(m + close, tag, i) {
      assert (m + close)[i] == m[i] && m[i] in m;
      if ClosesAt(m + close, tag, i) {
        ClosesAtStartsWithLt(m + close, tag, i);
      }
    }
  }

  /** The lower-case block `<tag>w</tag>` with '<'-free content is one such block. */
  lemma PlainBlock(w: string, tag: string)
    requires PlainTag(tag) && '<' !in w
    ensures Lower(tag) == tag && Lower(CloseTag(tag)) == CloseTag(tag)
    ensures forall i :: 0 <= i < |">" + w| ==> !ClosesAt(">" + w + CloseTag(tag), tag, i)
  {
    LowerOfPlain(tag);
    LowerOfPlain(CloseTag(tag));
    assert '<' !in ">" + w;
    NoCloseWithoutLt(">" + w, CloseTag(tag), tag);
  }

  /** A closing tag opens no block of any tag, so either pass keeps it. */
  lemma ClosingTagSurvives(t: string, tag: string)
    requires PlainTag(t) && PlainTag(tag)
    ensures StripBlocks(CloseTag(t), tag) == CloseTag(t)
  {
    var c := CloseTag(t);
    if |c| >= 1 + |tag| {
      assert Lower(c[1..1 + |tag|])[0] == LowerChar(c[1]) == '/';
    }
    KeepFirst(c, tag);
    assert c[1..] == "/" + t + ">";
    assert '<' !in c[1..];
    StripKeepsPlainPrefix(c[1..], "", tag);
    assert c[1..] + "" == c[1..];
    assert [c[0]] + c[1..] == c;
  }

  // ---------------------------------------------------------------------------------------
  // One pass can assemble a new block out of the pieces around the one it removed.

  /** The pieces of a plain tag name hold no '<', nor does '<'-free text after `b>`. */
  lemma PieceHasNoLt(a: string, b: string, w: string)
    requires PlainTag(a + b) && '<' !in w
    ensures '<' !in a && '<' !in b + ">" + w
  {
    assert forall i :: 0 <= i < |a| ==> a[i] == (a + b)[i];
    assert forall i :: 0 <= i < |b| ==> b[i] == (a + b)[|a| + i];
  }

  lemma SplitTagOpensNothing(a: string, b: string, after: string)
    requires PlainTag(a + b) && |a| > 0 && |b| > 0 && |after| >= |b| && after[0] == '<'
    ensures !OpensAt("<" + (a + after), a + b)
  {
    var t := a + b;
    var s := "<" + (a + after);
    assert s[1 + |a|] == '<';
    assert t[|a|] != '<';
    assert Lower(s[1..1 + |t|])[|a|] == LowerChar(s[1 + |a|]) == '<';
  }

  lemma KeepFirstOf(c: char, rest: string, tag: string)
    requires !OpensAt([c] + rest, tag)
    ensures StripBlocks([c] + rest, tag) == [c] + StripBlocks(rest, tag)
  {
    assert ([c] + rest)[1..] == rest;
  }

  /** The scan keeps `<a`: with a '<' inside the tag name, no block opens there. */
  lemma SplitTagPrefix(a: string, b: string, after: string)
    requires PlainTag(a + b) && |a| > 0 && |b| > 0 && |after| >= |b| && after[0] == '<'
    ensures StripBlocks("<" + (a + after), a + b) == "<" + (a + StripBlocks(after, a + b))
  {
    SplitTagOpensNothing(a, b, after);
    KeepFirstOf('<', a + after, a + b);
    PieceHasNoLt(a, b, "");
    StripKeepsPlainPrefix(a, after, a + b);
  }

  /** After the inner block is removed, the rest of the text is kept as it is. */
  lemma SplitTagSuffix(t: string, rest: string)
    requires PlainTag(t) && '<' !in rest
    ensures StripBlocks("<" + t + ">" + CloseTag(t) + (rest + CloseTag(t)), t) == rest + CloseTag(t)
  {
    PlainBlock("", t);
    assert ">" + "" == ">";
    StripRemovesBlock(t, ">", CloseTag(t), rest + CloseTag(t), t);
    StripKeepsPlainPrefix(rest, CloseTag(t), t);
    ClosingTagSurvives(t, t);
  }

  /** The crafted input regrouped as `<a`, the inner block, and the rest. */
  lemma SplitTagInput(a: string, b: string, w: string)
    ensures var t := a + b;
      "<" + a + "<" + t + ">" + CloseTag(t) + b + ">" + w + CloseTag(t)
        == "<" + (a + (("<" + t + ">" + CloseTag(t)) + ((b + ">" + w) + CloseTag(t))))
  {
  }

  /** The pieces `<a` and `b>w</tag>` joined again are the block `<tag>w</tag>`. */
  lemma SplitTagOutput(a: string, b: string, w: string)
    ensures var t := a + b;
      "<" + (a + ((b + ">" + w) + CloseTag(t))) == "<" + t + ">" + w + CloseTag(t)
  {
  }

  /**
   * Splitting a tag name `a + b` around a block of the same tag: one pass removes the inner
   * block, and the pieces `<a` and `b>` join into an opening tag again.
   */
  lemma SplitTagReassembles(a: string, b: string, w: string)
    requires PlainTag(a + b) && |a| > 0 && |b| > 0 && '<' !in w
    ensures var t := a + b;
      StripBlocks("<" + a + "<" + t + ">" + CloseTag(t) + b + ">" + w + CloseTag(t), t)
        == "<" + t + ">" + w + CloseTag(t)
  {
    var t := a + b;
    var inner := "<" + t + ">" + CloseTag(t);
    var rest := b + ">" + w;
    SplitTagInput(a, b, w);
    PieceHasNoLt(a, b, w);
    SplitTagPrefix(a, b, inner + (rest + CloseTag(t)));
    SplitTagSuffix(t, rest);
    SplitTagOutput(a, b, w);
  }

  lemma FirstCharOpensNothing(s: string, t: string, tag: string)
    requires PlainTag(t) && PlainTag(tag) && t[0] != tag[0]
    requires |s| > |t| && s[0] == '<' && s[1..1 + |t|] == t
    ensures !OpensAt(s, tag)
  {
    if |s| >= 1 + |tag| {
      assert Lower(s[1..1 + |tag|])[0] == LowerChar(t[0]) == t[0];
    }
  }

  /** Text that starts with `<` and another tag's name keeps its '<'. */
  lemma OtherTagKept(t: string, rest: string, tag: string)
    requires PlainTag(t) && PlainTag(tag) && t[0] != tag[0]
    ensures StripBlocks("<" + (t + rest), tag) == "<" + StripBlocks(t + rest, tag)
  {
    var s := "<" + (t + rest);
    assert s[1..1 + |t|] == t;
    FirstCharOpensNothing(s, t, tag);
    KeepFirst(s, tag);
    assert s[1..] == t + rest;
  }

  /** Plain text followed by a closing tag survives a pass. */
  lemma PlainThenCloseKept(plain: string, t: string, tag: string)
    requires PlainTag(t) && PlainTag(tag) && '<' !in plain
    ensures StripBlocks(plain + CloseTag(t), tag) == plain + CloseTag(t)
  {
    StripKeepsPlainPrefix(plain, CloseTag(t), tag);
    ClosingTagSurvives(t, tag);
  }

  lemma BlockRegrouped(t: string, w: string)
    ensures "<" + t + ">" + w + CloseTag(t) == "<" + (t + (">" + w + CloseTag(t)))
    ensures t + (">" + w + CloseTag(t)) == t + ">" + w + CloseTag(t)
  {
  }

  lemma PlainHasNoLt(t: string, w: string)
    requires PlainTag(t) && '<' !in w
    ensures '<' !in t + ">" + w
  {
    assert forall i :: 0 <= i < |t| ==> t[i] != '<';
  }

  /** A block of one tag passes through the pass for another tag whose name starts differently. */
  lemma OtherPassKeepsBlock(w: string, t: string, tag: string)
    requires PlainTag(t) && PlainTag(tag) && t[0] != tag[0] && '<' !in w
    ensures StripBlocks("<" + t + ">" + w + CloseTag(t), tag) == "<" + t + ">" + w + CloseTag(t)
  {
    var rest := ">" + w + CloseTag(t);
    var plain := t + ">" + w;
    BlockRegrouped(t, w);
    OtherTagKept(t, rest, tag);
    PlainHasNoLt(t, w);
    PlainThenCloseKept(plain, t, tag);
  }


  /**
   * As written the HTML sanitiser can return a script block: removing the inner block of
   * `<scr<script></script>ipt>x</script>` joins `<scr` and `ipt>` into a new `<script>` tag.
   */
  lemma SinglePassLeavesScript()
    ensures var input := "<" + "scr" + "<" + "script" + ">" + CloseTag("script") + "ipt" + ">" + "x" + CloseTag("script");
      var output := "<" + "script" + ">" + "x" + CloseTag("script");
      && SanitizeHtml(input) == output
      && BlockLength(output, "script") == Some(|output|)
      && !NoBlock(output, "script")
  {
    assert "scr" + "ipt" == "script";
    assert PlainTag("script") && PlainTag("iframe");
    SplitTagReassembles("scr", "ipt", "x");
    var output := "<" + "script" + ">" + "x" + CloseTag("script");
    OtherPassKeepsBlock("x", "script", "iframe");
    PlainBlockMatched("x", "script");
    assert output[0..] == output;
  }

  lemma PlainBlockMatched(w: string, tag: string)
    requires PlainTag(tag) && '<' !in w
    ensures var b := "<" + tag + ">" + w + CloseTag(tag); BlockLength(b, tag) == Some(|b|)
  {
    PlainBlock(w, tag);
    BlockAtStart(tag, ">" + w, CloseTag(tag), "", tag);
    assert "<" + tag + (">" + w) + CloseTag(tag) + "" == "<" + tag + ">" + w + CloseTag(tag);
  }

  // ---------------------------------------------------------------------------------------
  // A pass only deletes: what it returns is a subsequence of what it was given (StripBlocks).

  /** `r` is `s` with some characters deleted, the others kept in order. */
  predicate Subsequence(r: string, s: string)
    decreases |s|
  {
    if |r| == 0 then true
    else if |s| == 0 then false
    else (r[0] == s[0] && Subsequence(r[1..], s[1..])) || Subsequence(r, s[1..])
  }

  lemma {:induction false} SubsequenceRefl(s: string)
    ensures Subsequence(s, s)
    decreases |s|
  {
    if |s| > 0 {
      SubsequenceRefl(s[1..]);
    }
  }

  lemma {:induction false} SubsequenceTrans(a: string, b: string, c: string)
    requires Subsequence(a, b) && Subsequence(b, c)
    ensures Subsequence(a, c)
    decreases |c|
  {
    if |a| > 0 && |c| > 0 {
      if Subsequence(b, c[1..]) {
        SubsequenceTrans(a, b, c[1..]);
      } else if a[0] == b[0] && Subsequence(a[1..], b[1..]) {
        SubsequenceTrans(a[1..], b[1..], c[1..]);
      } else {
        SubsequenceTrans(a, b[1..], c[1..]);
      }
    }
  }

  lemma {:induction false} SuffixIsSubsequence(s: string, n: nat)
    requires n <= |s|
    ensures Subsequence(s[n..], s)
    decreases n
  {
    if n == 0 {
      SubsequenceRefl(s);
    } else {
      SuffixIsSubsequence(s[1..], n - 1);
      assert s[1..][n - 1..] == s[n..];
    }
  }

  /**
   * The two passes as written only delete text, and change it exactly when it holds a
   * script or iframe block.
   */
  lemma SanitizeHtmlDeletesOnly(s: string)
    ensures Subsequence(SanitizeHtml(s), s)
    ensures SanitizeHtml(s) == s <==> NoBlock(s, "script") && NoBlock(s, "iframe")
  {
    var t := StripBlocks(s, "script");
    SubsequenceTrans(SanitizeHtml(s), t, s);
    if NoBlock(s, "script") && NoBlock(s, "iframe") {
      StripWithoutBlock(s, "script");
      StripWithoutBlock(s, "iframe");
    }
    if SanitizeHtml(s) == s {
      SanitizeHtmlUnchanged(s);
    }
  }

  // ---------------------------------------------------------------------------------------
  // Corrected: repeat both passes until nothing more is removed.

  lemma SanitizeHtmlUnchanged(s: string)
    requires SanitizeHtml(s) == s
    ensures NoBlock(s, "script") && NoBlock(s, "iframe")
  {
    var t := StripBlocks(s, "script");
    StripUnchangedMeansNoBlock(s, "script");
    StripUnchangedMeansNoBlock(t, "iframe");
  }

  lemma SanitizeHtmlShortens(s: string)
    ensures |SanitizeHtml(s)| <= |s|
    ensures SanitizeHtml(s) != s ==> |SanitizeHtml(s)| < |s|
  {
    var t := StripBlocks(s, "script");
    StripUnchangedMeansNoBlock(s, "script");
    StripUnchangedMeansNoBlock(t, "iframe");
  }

  /**
   * Both passes, repeated until a round removes nothing. The result has no script or iframe
   * block, is a fixed point of the passes, keeps the rest of the text in order, and is the
   * text itself when that has no block.
   */
  function SanitizeHtmlFixed(s: string): (r: string)
    ensures NoBlock(r, "script") && NoBlock(r, "iframe")
    ensures SanitizeHtml(r) == r
    ensures Subsequence(r, s) && |r| <= |s|
    ensures NoBlock(s, "script") && NoBlock(s, "iframe") ==> r == s
    decreases |s|
  {
    var t := SanitizeHtml(s);
    SanitizeHtmlShortens(s);
    SanitizeHtmlDeletesOnly(s);
    if t == s then
      s
    else
      var r := SanitizeHtmlFixed(t);
      SubsequenceTrans(r, t, s);
      r
  }

  /** The corrected sanitiser agrees with the one-pass one whenever that one leaves no block. */
  lemma FixedAgreesWhenOnePassSuffices(s: string)
    requires NoBlock(SanitizeHtml(s), "script") && NoBlock(SanitizeHtml(s), "iframe")
    ensures SanitizeHtmlFixed(s) == SanitizeHtml(s)
  {
    var t := SanitizeHtml(s);
    StripWithoutBlock(t, "script");
    StripWithoutBlock(t, "iframe");
    assert SanitizeHtml(t) == t;
    if t != s {
      assert SanitizeHtmlFixed(s) == SanitizeHtmlFixed(t);
    }
  }

  function SanitizeEmailContentFixed(content: string, isHtml: bool): (r: string)
    ensures isHtml ==> NoBlock(r, "script") && NoBlock(r, "iframe")
    ensures isHtml ==> Subsequence(r, content)
    ensures isHtml && NoBlock(content, "script") && NoBlock(content, "iframe") ==> r == content
    ensures !isHtml ==> r == SanitizePlain(content)
  {
    if isHtml then SanitizeHtmlFixed(content) else SanitizePlain(content)
  }
}
