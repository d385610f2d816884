/** The behaviour of the few functions of Go's `strings` package that the rule
    store relies on, over strings seen as sequences of characters. Every
    delimiter the store uses is an ASCII character, so working on characters
    rather than UTF-8 bytes splits and searches at the same places. */
module Text {

  /** strings.HasPrefix */
  predicate HasPrefix(s: string, prefix: string) {
    |prefix| <= |s| && s[..|prefix|] == prefix
  }

  /** strings.HasSuffix */
  predicate HasSuffix(s: string, suffix: string) {
    |suffix| <= |s| && s[|s| - |suffix|..] == suffix
  }

  /** strings.TrimPrefix: drops one leading copy of `prefix`, if present. */
  function TrimPrefix(s: string, prefix: string): (r: string)
    ensures HasPrefix(s, prefix) ==> s == prefix + r
    ensures !HasPrefix(s, prefix) ==> r == s
  {
    if HasPrefix(s, prefix) then s[|prefix|..] else s
  }

  /** strings.TrimSuffix: drops one trailing copy of `suffix`, if present. */
  function TrimSuffix(s: string, suffix: string): (r: string)
    ensures HasSuffix(s, suffix) ==> s == r + suffix
    ensures !HasSuffix(s, suffix) ==> r == s
  {
    if HasSuffix(s, suffix) then s[..|s| - |suffix|] else s
  }

  /** The first position of `x` in `s`, or -1: strings.Index with a
      one-character needle, and the linear search the rule store runs over a
      chain's rules. */
  function Index<T(==)>(s: seq<T>, x: T): (i: int)
    ensures -1 <= i < |s|
    ensures 0 <= i ==> s[i] == x && forall k :: 0 <= k < i ==> s[k] != x
    ensures i == -1 <==> forall k :: 0 <= k < |s| ==> s[k] != x
  {
    IndexFrom(s, x, 0)
  }

  function IndexFrom<T(==)>(s: seq<T>, x: T, from: nat): (i: int)
    requires from <= |s|
    ensures -1 <= i < |s|
    ensures 0 <= i ==> from <= i && s[i] == x && forall k :: from <= k < i ==> s[k] != x
    ensures i == -1 ==> forall k :: from <= k < |s| ==> s[k] != x
    decreases |s| - from
  {
    if from == |s| then -1
    else if s[from] == x then from
    else IndexFrom(s, x, from + 1)
  }

  lemma IndexAfter<T>(a: seq<T>, x: T, b: seq<T>)
    requires forall k :: 0 <= k < |a| ==> a[k] != x
    ensures Index(a + [x] + b, x) == |a|
  {
    var s := a + [x] + b;
    assert s[|a|] == x;
    assert forall k :: 0 <= k < |a| ==> s[k] == a[k];
  }

  /** A text free of `c`, then either nothing or `c` and more text. */
  lemma IndexAtEnd(a: string, c: char, tail: string)
    requires forall k :: 0 <= k < |a| ==> a[k] != c
    requires tail == [] || tail[0] == c
    ensures Index(a + tail, c) == if tail == [] then -1 else |a|
  {
    var s := a + tail;
    assert forall k :: 0 <= k < |a| ==> s[k] == a[k];
    if tail != [] {
      IndexAfter(a, c, tail[1..]);
      assert s == a + [c] + tail[1..];
    }
  }

  /** strings.Join */
  function Join(parts: seq<string>, sep: string): string {
    if |parts| == 0 then ""
    else if |parts| == 1 then parts[0]
    else parts[0] + sep + Join(parts[1..], sep)
  }

  /** strings.Split around a one-character separator: the text between
      consecutive separators, always at least one field. */
  function Split(s: string, sep: char): (parts: seq<string>)
    ensures |parts| >= 1
    ensures Join(parts, [sep]) == s
    ensures forall k, j :: 0 <= k < |parts| && 0 <= j < |parts[k]| ==> parts[k][j] != sep
    decreases |s|
  {
    var i := Index(s, sep);
    if i < 0 then [s]
    else
      var rest := Split(s[i + 1..], sep);
      assert s == s[..i] + [sep] + s[i + 1..];
      [s[..i]] + rest
  }

  /** Splitting a text whose first field is `a` gives `a` and then the fields of the rest. */
  lemma SplitFirst(a: string, sep: char, b: string)
    requires forall k :: 0 <= k < |a| ==> a[k] != sep
    ensures Split(a + [sep] + b, sep) == [a] + Split(b, sep)
  {
    var s := a + [sep] + b;
    IndexAfter(a, sep, b);
    assert s[..|a|] == a;
    assert s[|a| + 1..] == b;
  }

  /** unicode.IsSpace, the test strings.TrimSpace uses. */
  predicate IsSpace(c: char) {
    || c == ' '
    || ('\t' <= c <= '\r')
    || c == '\U{0085}' || c == '\U{00A0}' || c == '\U{1680}'
    || ('\U{2000}' <= c <= '\U{200A}')
    || c == '\U{2028}' || c == '\U{2029}' || c == '\U{202F}' || c == '\U{205F}' || c == '\U{3000}'
  }

  function TrimLeftSpace(s: string): (r: string)
    ensures |r| <= |s| && r == s[|s| - |r|..]
    ensures |r| > 0 ==> !IsSpace(r[0])
    ensures forall k :: 0 <= k < |s| - |r| ==> IsSpace(s[k])
  {
    if |s| > 0 && IsSpace(s[0]) then TrimLeftSpace(s[1..]) else s
  }

  function TrimRightSpace(s: string): (r: string)
    ensures |r| <= |s| && r == s[..|r|]
    ensures |r| > 0 ==> !IsSpace(r[|r| - 1])
    ensures forall k :: |r| <= k < |s| ==> IsSpace(s[k])
  {
    if |s| > 0 && IsSpace(s[|s| - 1]) then TrimRightSpace(s[..|s| - 1]) else s
  }

  /** strings.TrimSpace: the text without its leading and trailing white space. */
  function TrimSpace(s: string): (r: string)
    ensures |r| > 0 ==> !IsSpace(r[0]) && !IsSpace(r[|r| - 1])
    ensures |s| > 0 && !IsSpace(s[0]) && !IsSpace(s[|s| - 1]) ==> r == s
    ensures r == [] <==> forall k :: 0 <= k < |s| ==> IsSpace(s[k])
  {
    TrimSpaceFacts(s);
    TrimRightSpace(TrimLeftSpace(s))
  }

  lemma TrimSpaceFacts(s: string)
    ensures var r := TrimRightSpace(TrimLeftSpace(s));
      && (|r| > 0 ==> !IsSpace(r[0]))
      && (|s| > 0 && !IsSpace(s[0]) && !IsSpace(s[|s| - 1]) ==> r == s)
      && (r == [] <==> forall k :: 0 <= k < |s| ==> IsSpace(s[k]))
  {
    var l := TrimLeftSpace(s);
    var r := TrimRightSpace(l);
    assert |r| > 0 ==> r[0] == l[0];
    if |s| > 0 && !IsSpace(s[0]) && !IsSpace(s[|s| - 1]) {
      assert l == s;
    }
    assert r == [] ==> |l| == 0;
  }

  /** strings.Replace(s, from, to, 1) for one-character texts: the first
      `from` becomes `to`. */
  function ReplaceFirst(s: string, from: char, to: char): (r: string)
    ensures |r| == |s|
  {
    var i := Index(s, from);
    if i < 0 then s else s[..i] + [to] + s[i + 1..]
  }

  /** strings.Contains */
  predicate Contains(s: string, sub: string)
    decreases |s|
  {
    HasPrefix(s, sub) || (|s| > 0 && Contains(s[1..], sub))
  }

  /** Text occurring anywhere in `s`, whatever surrounds it, is contained. */
  lemma {:induction false} ContainsAt(pre: string, sub: string, post: string)
    ensures Contains(pre + sub + post, sub)
    decreases |pre|
  {
    if pre == [] {
      assert pre + sub + post == sub + post;
      assert (sub + post)[..|sub|] == sub;
    } else {
      assert (pre + sub + post)[1..] == pre[1..] + sub + post;
      ContainsAt(pre[1..], sub, post);
    }
  }
}
