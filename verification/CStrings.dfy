/** NUL-terminated strings in bounded character buffers, and the bounded append every module of the
    agent uses to build text (`snprcat` in mrbig.c). */
module CStrings {

  datatype Option<+T> = None | Some(value: T)

  const NUL: char := '\0'

  /** What a C string may contain. */
  predicate NoNul(s: string) {
    NUL !in s
  }

  /** The first n elements, or everything when there are fewer. */
  function Take<T>(s: seq<T>, n: nat): (r: seq<T>)
    ensures r <= s && |r| == if |s| <= n then |s| else n
  {
    if |s| <= n then s else s[..n]
  }

  function Last<T>(s: seq<T>): T
    requires s != []
  {
    s[|s| - 1]
  }

  function Front<T>(s: seq<T>): seq<T>
    requires s != []
  {
    s[..|s| - 1]
  }

  function Reversed<T>(s: seq<T>): (r: seq<T>)
    ensures |r| == |s|
  {
    seq(|s|, i requires 0 <= i < |s| => s[|s| - 1 - i])
  }

  lemma ReversedAppend<T>(s: seq<T>, x: T)
    ensures Reversed(s + [x]) == [x] + Reversed(s)
  {
  }

  /** Position of the first c in s, or |s|. */
  function IndexOf(s: string, c: char): (k: nat)
    ensures k <= |s| && c !in s[..k]
    ensures k < |s| ==> s[k] == c
  {
    IndexFrom(s, c, 0)
  }

  function IndexFrom(s: string, c: char, from: nat): (k: nat)
    requires from <= |s|
    ensures from <= k <= |s| && (k < |s| ==> s[k] == c)
    ensures forall j | from <= j < k :: s[j] != c
    decreases |s| - from
  {
    if from == |s| || s[from] == c then from else IndexFrom(s, c, from + 1)
  }

  lemma IndexOfIs(s: string, c: char, k: nat)
    requires k <= |s| && c !in s[..k] && (k < |s| ==> s[k] == c)
    ensures IndexOf(s, c) == k
  {
    assert forall j | 0 <= j < k :: s[j] in s[..k];
  }

  /** The text up to the first c, and the text after it. */
  function FieldOf(s: string, c: char): string {
    s[..IndexOf(s, c)]
  }

  function RestOf(s: string, c: char): string {
    if IndexOf(s, c) == |s| then "" else s[IndexOf(s, c) + 1..]
  }

  lemma FieldReads(field: string, c: char, rest: string)
    requires c !in field
    ensures FieldOf(field + [c] + rest, c) == field && RestOf(field + [c] + rest, c) == rest
  {
    var s := field + [c] + rest;
    assert s[..|field|] == field && s[|field|] == c;
    IndexOfIs(s, c, |field|);
  }

  // ---------- dictionary order

  /** Up to k the texts agree; there a ends, or has the smaller character. */
  predicate EarlierAt(a: string, b: string, k: nat) {
    k <= |a| && k < |b| && a[..k] == b[..k] && (k == |a| || a[k] < b[k])
  }

  /** a comes before b in a dictionary. */
  ghost predicate Earlier(a: string, b: string) {
    exists k: nat | k < |b| :: EarlierAt(a, b, k)
  }

  lemma EarlierEmpty(a: string, b: string)
    requires a == "" || b == ""
    ensures Earlier(a, b) <==> a == "" && b != ""
  {
    if a == "" && b != "" { assert EarlierAt(a, b, 0); }
  }

  lemma EarlierCons(x: char, a: string, y: char, b: string)
    ensures Earlier([x] + a, [y] + b) <==> x < y || (x == y && Earlier(a, b))
  {
    var s, t := [x] + a, [y] + b;
    if Earlier(s, t) {
      var k: nat :| k < |t| && EarlierAt(s, t, k);
      if k > 0 {
        assert s[..k][0] == x && t[..k][0] == y;
        assert s[..k][1..] == a[..k - 1] && t[..k][1..] == b[..k - 1];
        assert EarlierAt(a, b, k - 1);
      }
    }
    if x < y { assert EarlierAt(s, t, 0); }
    if x == y && Earlier(a, b) {
      var k: nat :| k < |b| && EarlierAt(a, b, k);
      assert s[..k + 1] == [x] + a[..k] && t[..k + 1] == [y] + b[..k];
      assert EarlierAt(s, t, k + 1);
    }
  }

  /** The C string a buffer holds: everything before its first NUL. */
  function CStr(buf: seq<char>): (r: string)
    ensures NoNul(r) && r <= buf
  {
    buf[..IndexOf(buf, NUL)]
  }

  lemma CStrIs(buf: seq<char>, s: string)
    requires NoNul(s) && s <= buf && |s| < |buf| && buf[|s|] == NUL
    ensures CStr(buf) == s
  {
    IndexOfIs(buf, NUL, |s|);
  }

  /** Appends formatted text inside a buffer of which `size` characters may be used. What does not fit
      before the final NUL is dropped; the untruncated length is returned, as vsnprintf does. */
  method Snprcat(str: array<char>, size: nat, text: string) returns (r: nat)
    requires 0 < size <= str.Length && NoNul(text)
    requires |CStr(str[..])| < size
    modifies str
    ensures CStr(str[..]) == Take(old(CStr(str[..])) + text, size - 1)
    ensures r == |text|
    ensures str[size..] == old(str[size..])
  {
    ghost var was := str[..];
    var n := 0;
    while str[n] != NUL
      invariant n <= |CStr(was)| < size
      invariant NoNul(str[..n]) && str[..] == was
      decreases size - n
    {
      n := n + 1;
    }
    assert CStr(was) == was[..n] by { IndexOfIs(was, NUL, n); }
    var k := 0;
    while k < |text| && n + k < size - 1
      invariant 0 <= k <= |text| && n + k <= size - 1
      invariant str[..n + k] == was[..n] + text[..k]
      invariant str[size..] == was[size..]
    {
      str[n + k] := text[k];
      k := k + 1;
    }
    str[n + k] := NUL;
    str[size - 1] := NUL;
    r := |text|;
    assert NoNul(text[..k]);
    CStrIs(str[..], was[..n] + text[..k]);
  }
}
