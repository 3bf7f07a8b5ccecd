/** The Python `str` operations the back-ends use, with Python's semantics. */
module PyStr {

  /** `sub` occurs in `s` starting at index `i`. */
  predicate OccursAt(s: string, sub: string, i: int) {
    0 <= i && i + |sub| <= |s| && s[i..i + |sub|] == sub
  }

  /** Python's `sub in s`. */
  predicate Contains(s: string, sub: string) {
    exists i :: 0 <= i <= |s| && OccursAt(s, sub, i)
  }

  /** The first occurrence of `sub` at or after `from` starts at `i`. */
  ghost predicate FirstFrom(s: string, sub: string, from: int, i: int) {
    from <= i && OccursAt(s, sub, i) && forall k :: from <= k < i ==> !OccursAt(s, sub, k)
  }

  /** `sub` does not occur at or after `from`. */
  ghost predicate NoneFrom(s: string, sub: string, from: int) {
    forall k :: from <= k ==> !OccursAt(s, sub, k)
  }

  /** Python's `s.find(sub, start)` for a non-negative `start`: the first occurrence at or after `start`, or -1. */
  function Find(s: string, sub: string, start: nat): (r: int)
    ensures r == -1 ==> NoneFrom(s, sub, start)
    ensures r != -1 ==> FirstFrom(s, sub, start, r)
    decreases |s| - start
  {
    if start + |sub| > |s| then -1
    else if s[start..start + |sub|] == sub then start
    else Find(s, sub, start + 1)
  }

  /** `sub in s` holds exactly when `s.find(sub)` finds something. */
  lemma ContainsFind(s: string, sub: string)
    ensures Contains(s, sub) <==> Find(s, sub, 0) >= 0
  {
    var r := Find(s, sub, 0);
    if r >= 0 {
      assert OccursAt(s, sub, r);
    }
  }

  /** `s.find(sub, from)` is the first occurrence at or after `from`. */
  lemma FindFirstFrom(s: string, sub: string, from: nat, i: int)
    requires FirstFrom(s, sub, from, i)
    ensures Find(s, sub, from) == i
  {
  }

  /** A one-character string occurs exactly where that character stands. */
  lemma OccursAtChar(s: string, c: char, k: int)
    ensures OccursAt(s, [c], k) <==> 0 <= k < |s| && s[k] == c
  {
    if 0 <= k < |s| {
      assert s[k..k + 1] == [s[k]];
    }
  }

  /** A slice bound `i` of Python's `s[a:b]`, normalised against the length `n`. */
  function Bound(n: nat, i: int): (k: nat)
    ensures k <= n
    ensures 0 <= i <= n ==> k == i
    ensures i < 0 && n + i >= 0 ==> k == n + i
    ensures i > n ==> k == n
    ensures n + i < 0 ==> k == 0
  {
    if i < 0 then (if n + i < 0 then 0 else n + i) else if i > n then n else i
  }

  /** Python's `s[a:b]`: negative bounds count from the end, bounds are clamped, a crossed range is empty. */
  function Slice(s: string, a: int, b: int): (r: string)
    ensures |r| <= |s|
    ensures 0 <= a <= b <= |s| ==> r == s[a..b]
    ensures 0 <= a <= |s| <= b ==> r == s[a..]
    ensures 0 <= a && b == -1 && a < |s| ==> r == s[a..|s| - 1]
    ensures 0 <= a && b == -1 && a >= |s| - 1 ==> r == []
  {
    var lo, hi := Bound(|s|, a), Bound(|s|, b);
    if lo < hi then s[lo..hi] else []
  }

  predicate StartsWith(s: string, prefix: string) {
    |prefix| <= |s| && s[..|prefix|] == prefix
  }

  predicate EndsWith(s: string, suffix: string) {
    |suffix| <= |s| && s[|s| - |suffix|..] == suffix
  }

  /** Python's `c.isspace()`: the characters `str.strip()` removes by default. */
  predicate IsSpace(c: char) {
    var n := c as int;
    (0x09 <= n <= 0x0D) || (0x1C <= n <= 0x20) || n == 0x85 || n == 0xA0 || n == 0x1680
    || (0x2000 <= n <= 0x200A) || n == 0x2028 || n == 0x2029 || n == 0x202F || n == 0x205F
    || n == 0x3000
  }

  predicate AllSpace(s: string) {
    forall k :: 0 <= k < |s| ==> IsSpace(s[k])
  }

  /** No whitespace at either end. */
  predicate Unpadded(s: string) {
    s == [] || (!IsSpace(s[0]) && !IsSpace(s[|s| - 1]))
  }

  /** Python's `s.lstrip()`. */
  function StripStart(s: string): (r: string)
    ensures |r| <= |s| && r == s[|s| - |r|..]
    ensures AllSpace(s[..|s| - |r|])
    ensures r == [] || !IsSpace(r[0])
  {
    if s != [] && IsSpace(s[0]) then StripStart(s[1..]) else s
  }

  /** Python's `s.rstrip()`. */
  function StripEnd(s: string): (r: string)
    ensures |r| <= |s| && r == s[..|r|]
    ensures AllSpace(s[|r|..])
    ensures r == [] || !IsSpace(r[|r| - 1])
  {
    if s != [] && IsSpace(s[|s| - 1]) then StripEnd(s[..|s| - 1]) else s
  }

  /** Python's `s.strip()`: `s` without its leading and trailing whitespace. */
  function Strip(s: string): (r: string)
    ensures Unpadded(r) && |r| <= |s|
  {
    StripEnd(StripStart(s))
  }

  /** What `strip()` removes is whitespace at the two ends and nothing else. */
  lemma StripTrims(s: string)
    ensures exists pre, post {:trigger AllSpace(pre), AllSpace(post)} ::
              AllSpace(pre) && AllSpace(post) && s == pre + Strip(s) + post
  {
    var left := StripStart(s);
    var r := StripEnd(left);
    var pre, post := s[..|s| - |left|], left[|r|..];
    ThreeParts(s, left, r);
    assert AllSpace(pre) && AllSpace(post) && s == pre + r + post;
  }

  lemma ThreeParts(s: string, left: string, r: string)
    requires |left| <= |s| && left == s[|s| - |left|..]
    requires |r| <= |left| && r == left[..|r|]
    ensures s == s[..|s| - |left|] + r + left[|r|..]
  {
    assert left == r + left[|r|..];
    assert s == s[..|s| - |left|] + left;
  }

  /** Stripping text padded only by whitespace gives back the text. */
  lemma StripPadded(pre: string, s: string, post: string)
    requires AllSpace(pre) && AllSpace(post) && Unpadded(s)
    ensures Strip(pre + s + post) == s
  {
    if s == [] {
      assert pre + s + post == (pre + post) + [];
      StripStartPadded(pre + post, []);
    } else {
      assert pre + s + post == pre + (s + post);
      StripStartPadded(pre, s + post);
      StripEndPadded(s, post);
    }
  }

  lemma {:induction false} StripStartPadded(pre: string, s: string)
    requires AllSpace(pre) && (s == [] || !IsSpace(s[0]))
    ensures StripStart(pre + s) == s
  {
    if pre != [] {
      assert (pre + s)[1..] == pre[1..] + s;
      StripStartPadded(pre[1..], s);
    } else {
      assert pre + s == s;
    }
  }

  lemma {:induction false} StripEndPadded(s: string, post: string)
    requires AllSpace(post) && (s == [] || !IsSpace(s[|s| - 1]))
    ensures StripEnd(s + post) == s
  {
    if post != [] {
      assert (s + post)[..|s + post| - 1] == s + post[..|post| - 1];
      StripEndPadded(s, post[..|post| - 1]);
    } else {
      assert s + post == s;
    }
  }

  /** `strip()` is idempotent. */
  lemma StripIdempotent(s: string)
    ensures Strip(Strip(s)) == Strip(s)
  {
    StripPadded([], Strip(s), []);
    assert [] + Strip(s) + [] == Strip(s);
  }

  /** Python's `c.lower()` on the ASCII letters. */
  function LowerChar(c: char): char {
    if 'A' <= c <= 'Z' then (c as int + 32) as char else c
  }

  /** Python's `s.lower()`, restricted to ASCII case mapping. */
  function Lower(s: string): (r: string)
    ensures |r| == |s| && forall k :: 0 <= k < |s| ==> r[k] == LowerChar(s[k])
  {
    seq(|s|, k requires 0 <= k < |s| => LowerChar(s[k]))
  }

  /** Python's `s.rfind(c)` for one character: the last index holding `c`, or -1. */
  function LastIndexOf(s: string, c: char): (r: int)
    ensures r == -1 ==> c !in s
    ensures r != -1 ==> 0 <= r < |s| && s[r] == c && c !in s[r + 1..]
  {
    if s == [] then -1
    else if s[|s| - 1] == c then |s| - 1
    else
      var r := LastIndexOf(s[..|s| - 1], c);
      assert r != -1 ==> s[r + 1..] == s[..|s| - 1][r + 1..] + [s[|s| - 1]];
      assert r == -1 ==> s == s[..|s| - 1] + [s[|s| - 1]];
      r
  }
}
