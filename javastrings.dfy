/**
 * The few `java.lang.String` operations the modelled code relies on, written out
 * over `seq<char>`: prefix test, first and last index of a character or of a
 * substring, `trim`, ASCII `equalsIgnoreCase`, `replace` and a literal
 * `replaceFirst`.
 */
module JavaStrings {

  /** `s.startsWith(p)` */
  predicate StartsWith(s: string, p: string) {
    |p| <= |s| && s[..|p|] == p
  }

  /** `s.indexOf(c)`: the first index of `c`, or -1 when `c` does not occur. */
  function IndexOfChar(s: string, c: char): (r: int)
    ensures -1 <= r < |s|
    ensures r == -1 <==> c !in s
    ensures 0 <= r ==> s[r] == c && c !in s[..r]
  {
    if |s| == 0 then -1
    else if s[0] == c then 0
    else
      var k := IndexOfChar(s[1..], c);
      assert s[1..][..if k < 0 then 0 else k] == s[1..if k < 0 then 1 else k + 1];
      if k == -1 then -1 else k + 1
  }

  /** The first `c` of `a + [c] + b` is the one after `a` when `a` has none. */
  lemma {:induction false} IndexOfCharAt(a: string, c: char, b: string)
    requires c !in a
    ensures IndexOfChar(a + [c] + b, c) == |a|
  {
    var s := a + [c] + b;
    var i := IndexOfChar(s, c);
    assert s[|a|] == c;
    assert forall j :: 0 <= j < |a| ==> s[j] == a[j];
    assert forall j :: 0 <= j < i ==> s[..i][j] == s[j];
  }

  /** `s.lastIndexOf(c)`: the last index of `c`, or -1 when `c` does not occur. */
  function LastIndexOfChar(s: string, c: char): (r: int)
    ensures -1 <= r < |s|
    ensures r == -1 <==> c !in s
    ensures 0 <= r ==> s[r] == c
    ensures forall j :: r < j < |s| ==> s[j] != c
    ensures c !in s[r + 1..]
  {
    if |s| == 0 then -1
    else if s[|s| - 1] == c then |s| - 1
    else
      var k := LastIndexOfChar(s[..|s| - 1], c);
      assert s == s[..|s| - 1] + [s[|s| - 1]];
      k
  }

  /** The last `c` of `a + [c] + b` is the one after `a` when `b` holds none. */
  lemma {:induction false} LastIndexOfCharAt(a: string, c: char, b: string)
    requires c !in b
    ensures LastIndexOfChar(a + [c] + b, c) == |a|
  {
    var s := a + [c] + b;
    assert s[|a|] == c;
    assert forall j :: |a| < j < |s| ==> s[j] != c by {
      assert forall j :: |a| < j < |s| ==> s[j] == b[j - |a| - 1];
    }
    var r := LastIndexOfChar(s, c);
    assert |a| <= r;
  }

  /** `s.indexOf(p)`: the first index at which `p` occurs in `s`, or -1. */
  function IndexOf(s: string, p: string): (r: int)
    ensures -1 <= r <= |s|
    ensures 0 <= r ==> r + |p| <= |s| && StartsWith(s[r..], p)
    ensures 0 <= r ==> forall j :: 0 <= j < r ==> !StartsWith(s[j..], p)
    ensures r == -1 ==> forall j :: 0 <= j <= |s| ==> !StartsWith(s[j..], p)
    decreases |s|
  {
    if StartsWith(s, p) then 0
    else if |s| == 0 then -1
    else
      var k := IndexOf(s[1..], p);
      assert forall j :: 1 <= j <= |s| ==> s[j..] == s[1..][j - 1..];
      if k == -1 then -1 else k + 1
  }

  /** `s.contains(p)` */
  predicate Contains(s: string, p: string) {
    IndexOf(s, p) != -1
  }

  /** The characters `String.trim` removes: every character up to U+0020. */
  predicate IsTrimmed(c: char) {
    c <= ' '
  }

  /** The number of leading characters `trim` removes. */
  function LeadingBlanks(s: string): (n: nat)
    ensures n <= |s|
    ensures forall i :: 0 <= i < n ==> IsTrimmed(s[i])
    ensures n < |s| ==> !IsTrimmed(s[n])
  {
    if |s| == 0 || !IsTrimmed(s[0]) then 0 else 1 + LeadingBlanks(s[1..])
  }

  /** The number of trailing characters `trim` removes. */
  function TrailingBlanks(s: string): (n: nat)
    ensures n <= |s|
    ensures forall i :: |s| - n <= i < |s| ==> IsTrimmed(s[i])
    ensures n < |s| ==> !IsTrimmed(s[|s| - 1 - n])
  {
    if |s| == 0 || !IsTrimmed(s[|s| - 1]) then 0 else 1 + TrailingBlanks(s[..|s| - 1])
  }

  /**
   * `s.trim()`: `s` without its leading and trailing characters up to U+0020;
   * what remains neither starts nor ends with such a character.
   */
  function Trim(s: string): (r: string)
    ensures LeadingBlanks(s) == |s| ==> r == []
    ensures LeadingBlanks(s) < |s| ==>
              LeadingBlanks(s) + TrailingBlanks(s) < |s| &&
              r == s[LeadingBlanks(s)..|s| - TrailingBlanks(s)]
    ensures r == [] || (!IsTrimmed(r[0]) && !IsTrimmed(r[|r| - 1]))
  {
    var lead := LeadingBlanks(s);
    if lead == |s| then []
    else
      var trail := TrailingBlanks(s);
      s[lead..|s| - trail]
  }

  /** ASCII case folding: maps 'A'..'Z' to 'a'..'z' and leaves every other character alone. */
  function LowerAscii(c: char): (r: char)
    ensures 'A' <= c <= 'Z' ==> r as int == c as int + 32
    ensures !('A' <= c <= 'Z') ==> r == c
  {
    if 'A' <= c <= 'Z' then (c as int + 32) as char else c
  }

  /** `a.equalsIgnoreCase(b)` for text whose case distinctions are ASCII ones. */
  predicate EqualsIgnoreCase(a: string, b: string) {
    |a| == |b| && forall i :: 0 <= i < |a| ==> LowerAscii(a[i]) == LowerAscii(b[i])
  }

  /**
   * `s.replace(p, q)` for a non-empty `p`: every occurrence of `p`, found left to
   * right without overlapping, is replaced by `q`.
   */
  function Replace(s: string, p: string, q: string): string
    requires p != []
    decreases |s|
  {
    if |s| < |p| then s
    else if StartsWith(s, p) then q + Replace(s[|p|..], p, q)
    else [s[0]] + Replace(s[1..], p, q)
  }

  /** Replacing a pattern that does not occur returns the text unchanged. */
  lemma {:induction false} ReplaceAbsent(s: string, p: string, q: string)
    requires p != []
    requires IndexOf(s, p) == -1
    ensures Replace(s, p, q) == s
    decreases |s|
  {
    if |s| < |p| {
    } else {
      assert !StartsWith(s[0..], p);
      assert s[0..] == s;
      assert IndexOf(s[1..], p) == -1 by {
        forall j | 0 <= j <= |s[1..]| ensures !StartsWith(s[1..][j..], p) {
          assert s[1..][j..] == s[j + 1..];
        }
      }
      ReplaceAbsent(s[1..], p, q);
    }
  }

  /** Replacing a pattern by itself returns the text unchanged. */
  lemma {:induction false} ReplaceBySelf(s: string, p: string)
    requires p != []
    ensures Replace(s, p, p) == s
    decreases |s|
  {
    if |s| < |p| {
    } else if StartsWith(s, p) {
      ReplaceBySelf(s[|p|..], p);
      assert s == p + s[|p|..];
    } else {
      ReplaceBySelf(s[1..], p);
      assert s == [s[0]] + s[1..];
    }
  }

  /** `s.replaceFirst(p, q)` for a pattern with no regular-expression metacharacters. */
  function ReplaceFirst(s: string, p: string, q: string): (r: string)
    ensures IndexOf(s, p) == -1 ==> r == s
    ensures IndexOf(s, p) >= 0 ==>
              r == s[..IndexOf(s, p)] + q + s[IndexOf(s, p) + |p|..]
  {
    var i := IndexOf(s, p);
    if i == -1 then s else s[..i] + q + s[i + |p|..]
  }

  /** A pattern at the front of the text is replaced there, and the rest is kept. */
  lemma {:induction false} ReplaceFirstAtFront(p: string, t: string, q: string)
    ensures ReplaceFirst(p + t, p, q) == q + t
  {
    var s := p + t;
    assert s[..|p|] == p;
    assert IndexOf(s, p) == 0;
    assert s[|p|..] == t;
  }

  /**
   * When the first occurrence of `p` in `a + p + b` is the one after `a`,
   * `replaceFirst` puts `q` in its place and keeps `a` and `b`.
   */
  lemma {:induction false} ReplaceFirstAt(a: string, p: string, b: string, q: string)
    requires forall j :: 0 <= j < |a| ==> !StartsWith((a + p + b)[j..], p)
    ensures ReplaceFirst(a + p + b, p, q) == a + q + b
  {
    var s := a + p + b;
    assert s[|a|..][..|p|] == p;
    var i := IndexOf(s, p);
    assert i == |a|;
    assert s[..i] == a;
    assert s[i + |p|..] == b;
  }
}
