/** The compose request that the send operation receives, and how its fields are normalised. */
module Mail {
  import opened Wrappers

  /** A recipient field: a single address string or an array of them. */
  datatype Addresses = One(address: string) | Many(addresses: seq<string>)

  /**
   * The validated arguments of a send: `cc`, `bcc` and `attachments` may be absent;
   * `html` has already been defaulted to false when omitted.
   */
  datatype ComposeRequest = ComposeRequest(
    to: Addresses,
    subject: string,
    body: string,
    cc: Option<Addresses>,
    bcc: Option<Addresses>,
    html: bool,
    attachments: Option<seq<string>>)

  /** `Array.isArray(to) ? to : [to]`. */
  function AsList(a: Addresses): seq<string> {
    match a
    case One(s) => [s]
    case Many(xs) => xs
  }

  /** `cc ? (Array.isArray(cc) ? cc : [cc]) : []`: an absent field and an empty string are both falsy. */
  function OptionalList(a: Option<Addresses>): seq<string> {
    match a
    case None => []
    case Some(One(s)) => if s == "" then [] else [s]
    case Some(Many(xs)) => xs
  }

  /** A single address becomes a one-element list; an absent or empty-string optional field an empty one. */
  lemma RecipientNormalisation(a: Addresses, o: Option<Addresses>)
    ensures a.One? ==> AsList(a) == [a.address]
    ensures a.Many? ==> AsList(a) == a.addresses
    ensures o.None? ==> OptionalList(o) == []
    ensures o.Some? && o.value.One? ==> OptionalList(o) == if o.value.address == "" then [] else [o.value.address]
    ensures o.Some? && o.value.Many? ==> OptionalList(o) == o.value.addresses
  {
  }

  /** Drops the trailing '/' characters of a path, and nothing else. */
  function TrimTrailingSlashes(p: string): (r: string)
    ensures |r| <= |p| && r == p[..|r|] && (|r| == 0 || r[|r| - 1] != '/')
    ensures forall i :: |r| <= i < |p| ==> p[i] == '/'
    decreases |p|
  {
    if |p| > 0 && p[|p| - 1] == '/' then
      var r := TrimTrailingSlashes(p[..|p| - 1]);
      assert p[..|p| - 1][..|r|] == p[..|r|];
      r
    else p
  }

  /** `r` holds no '/' and is the suffix of `p` that starts at its beginning or just after a '/'. */
  ghost predicate IsLastSegment(p: string, r: string) {
    '/' !in r && exists k :: 0 <= k <= |p| && p[k..] == r && (k == 0 || p[k - 1] == '/')
  }

  /** The text after the last '/'. */
  function LastSegment(p: string): (r: string)
    ensures IsLastSegment(p, r)
    decreases |p|
  {
    if |p| == 0 || p[|p| - 1] == '/' then
      assert p[|p|..] == "";
      ""
    else
      var init := LastSegment(p[..|p| - 1]);
      ghost var k :| 0 <= k <= |p| - 1 && p[..|p| - 1][k..] == init && (k == 0 || p[..|p| - 1][k - 1] == '/');
      assert p[k..] == init + [p[|p| - 1]];
      init + [p[|p| - 1]]
  }

  /**
   * POSIX `path.basename(p)`: the last segment of the path once trailing slashes are dropped.
   * It holds no '/', only characters of the path, and is the whole path when that has no '/'.
   */
  function Basename(p: string): (r: string)
    ensures IsLastSegment(TrimTrailingSlashes(p), r)
    ensures forall c :: c in r ==> c in p
    ensures '/' !in p ==> r == p
  {
    var trimmed := TrimTrailingSlashes(p);
    var r := LastSegment(trimmed);
    ghost var k :| 0 <= k <= |trimmed| && trimmed[k..] == r && (k == 0 || trimmed[k - 1] == '/');
    assert forall c :: c in r ==> c in trimmed;
    assert '/' !in p ==> trimmed == p && r == p;
    r
  }

  lemma NoSlashFrom(p: string, k: nat)
    requires k <= |p| && '/' !in p[k..]
    ensures forall i :: k <= i < |p| ==> p[i] != '/'
  {
    assert forall i :: k <= i < |p| ==> p[i] == p[k..][i - k];
  }

  /** Of `d/n` with `n` free of '/', the last segment is `n`: no other suffix qualifies. */
  lemma LastSegmentOf(d: string, n: string, r: string)
    requires '/' !in n && IsLastSegment(d + "/" + n, r)
    ensures r == n
  {
    var p := d + "/" + n;
    var k :| 0 <= k <= |p| && p[k..] == r && (k == 0 || p[k - 1] == '/');
    assert p[|d| + 1..] == n;
    NoSlashFrom(p, |d| + 1);
    NoSlashFrom(p, k);
    assert p[|d|] == '/';
    assert k == |d| + 1;
  }

  /**
   * The file name of `d/n`, with any number of trailing slashes, is `n` when `n` is a
   * non-empty name without '/'.
   */
  lemma BasenameOf(d: string, n: string, k: nat)
    requires |n| > 0 && '/' !in n
    ensures Basename(d + "/" + n + seq(k, _ => '/')) == n
  {
    var q := d + "/" + n;
    var p := q + seq(k, _ => '/');
    var t := TrimTrailingSlashes(p);
    assert n[|n| - 1] in n;
    assert p[|q| - 1] != '/';
    assert forall i :: |q| <= i < |p| ==> p[i] == '/';
    assert |t| == |q|;
    assert p[..|q|] == q;
    LastSegmentOf(d, n, Basename(p));
  }
}
