/**
 String helpers the script borrows from Python's `str`: `strip()`, `endswith()`
 and `split(sep)[0]`. Strings are sequences of Unicode scalar values.
 */
module Text {

  /** Python's `str.isspace` on one code point: the characters `str.strip()`
      with no argument removes (bidirectional class WS, B or S, or category Zs). */
  predicate IsSpace(c: char) {
    var n := c as int;
    || 0x09 <= n <= 0x0D
    || 0x1C <= n <= 0x20
    || n == 0x85
    || n == 0xA0
    || n == 0x1680
    || 0x2000 <= n <= 0x200A
    || n == 0x2028
    || n == 0x2029
    || n == 0x202F
    || n == 0x205F
    || n == 0x3000
  }

  /** CPython's ASCII whitespace table, spelled out: tab, line feed, vertical
      tab, form feed, carriage return, the four information separators and
      the space. */
  const AsciiWhitespace: string :=
    ['\t', '\n', '\U{0B}', '\U{0C}', '\r', '\U{1C}', '\U{1D}', '\U{1E}', '\U{1F}', ' ']

  /** On ASCII, the whitespace set is exactly CPython's table. */
  lemma AsciiSpace(c: char)
    requires c as int < 0x80
    ensures IsSpace(c) <==> c in AsciiWhitespace
  {
  }

  predicate AllSpace(s: string) {
    forall k :: 0 <= k < |s| ==> IsSpace(s[k])
  }

  /** Neither begins nor ends with whitespace. */
  predicate Unpadded(s: string) {
    s == [] || (!IsSpace(s[0]) && !IsSpace(s[|s| - 1]))
  }

  /** The first position at or after `i` that does not hold whitespace
      (`|s|` when there is none). */
  function SkipSpace(s: string, i: nat): (k: nat)
    requires i <= |s|
    ensures i <= k <= |s|
    ensures forall m :: i <= m < k ==> IsSpace(s[m])
    ensures k < |s| ==> !IsSpace(s[k])
    decreases |s| - i
  {
    if i == |s| || !IsSpace(s[i]) then i else SkipSpace(s, i + 1)
  }

  /** Walking back from `j` towards `lo`, the position just after the last
      character that is not whitespace (`lo` when there is none). */
  function BackSpace(s: string, lo: nat, j: nat): (k: nat)
    requires lo <= j <= |s|
    ensures lo <= k <= j
    ensures forall m :: k <= m < j ==> IsSpace(s[m])
    ensures k > lo ==> !IsSpace(s[k - 1])
    decreases j
  {
    if j == lo || !IsSpace(s[j - 1]) then j else BackSpace(s, lo, j - 1)
  }

  /** Python's `s.strip()`: a contiguous piece of `s`, starting at its first
      non-space character, with no surrounding whitespace, such that
      everything cut away on either side is whitespace. */
  function Strip(s: string): (r: string)
    ensures Unpadded(r)
    ensures var a := SkipSpace(s, 0);
            && a + |r| <= |s|
            && r == s[a..a + |r|]
            && (forall m :: 0 <= m < a ==> IsSpace(s[m]))
            && (forall m :: a + |r| <= m < |s| ==> IsSpace(s[m]))
  {
    var a := SkipSpace(s, 0);
    var b := BackSpace(s, a, |s|);
    s[a..b]
  }

  /** `Strip` is the only way to cut a string into whitespace, an unpadded
      middle, and whitespace: whatever the padding, the middle comes back. */
  lemma StripUnique(pre: string, m: string, post: string)
    requires AllSpace(pre) && AllSpace(post) && Unpadded(m)
    ensures Strip(pre + m + post) == m
  {
    var s := pre + m + post;
    var lo := |pre|;
    var hi := |pre| + |m|;
    forall k | 0 <= k < lo
      ensures IsSpace(s[k])
    {
      assert s[k] == pre[k];
    }
    forall k | hi <= k < |s|
      ensures IsSpace(s[k])
    {
      assert s[k] == post[k - hi];
    }
    var a := SkipSpace(s, 0);
    var r := Strip(s);
    if m == [] {
      assert a == |s|;
    } else {
      assert s[lo] == m[0] && s[hi - 1] == m[|m| - 1];
      assert a == lo;
      assert a + |r| == hi;
      assert s[lo..hi] == m;
    }
  }

  /** Stripping twice is stripping once. */
  lemma StripIdempotent(s: string)
    ensures Strip(Strip(s)) == Strip(s)
  {
    var m := Strip(s);
    StripUnique([], m, []);
    assert [] + m + [] == m;
  }

  /** Python's `s.endswith(suffix)`. */
  predicate EndsWith(s: string, suffix: string) {
    |suffix| <= |s| && s[|s| - |suffix|..] == suffix
  }

  /** `EndsWith` holds exactly when `s` is something followed by `suffix`. */
  lemma EndsWithJoin(s: string, suffix: string)
    ensures EndsWith(s, suffix) <==> exists prefix :: prefix + suffix == s
  {
    if |suffix| <= |s| && s[|s| - |suffix|..] == suffix {
      assert s[..|s| - |suffix|] + suffix == s;
    }
    forall prefix | prefix + suffix == s
      ensures |suffix| <= |s| && s[|s| - |suffix|..] == suffix
    {
      assert (prefix + suffix)[|prefix|..] == suffix;
    }
  }

  /** Python's `s.split(sep)[0]`: the text before the first `sep`, or all of
      `s` when it holds no `sep`. */
  function FirstField(s: string, sep: char): (r: string)
    ensures |r| <= |s| && r == s[..|r|]
    ensures sep !in r
    ensures |r| < |s| ==> s[|r|] == sep
  {
    if s == [] || s[0] == sep then [] else [s[0]] + FirstField(s[1..], sep)
  }

  /** Splitting `head + sep + tail` gives back `head` whenever `head` holds no
      separator, whatever `tail` holds. */
  lemma {:induction false} FirstFieldOfJoin(head: string, sep: char, tail: string)
    requires sep !in head
    ensures FirstField(head + [sep] + tail, sep) == head
    decreases |head|
  {
    if head != [] {
      assert (head + [sep] + tail)[1..] == head[1..] + [sep] + tail;
      FirstFieldOfJoin(head[1..], sep, tail);
      assert [head[0]] + head[1..] == head;
    }
  }
}
