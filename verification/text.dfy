/** The few Go `strings` operations the program relies on, over `seq<char>`. */
module Text {
  import opened Wrappers

  /** Position of the first `c` in `s`, or `None` when `s` has no `c`. */
  function IndexOf(s: string, c: char): (r: Option<nat>)
    ensures r.None? <==> c !in s
    ensures r.Some? ==> r.value < |s| && s[r.value] == c && c !in s[..r.value]
  {
    if |s| == 0 then None
    else if s[0] == c then Some(0)
    else
      match IndexOf(s[1..], c)
      case None => None
      case Some(i) =>
        assert s[..i + 1] == [s[0]] + s[1..][..i];
        Some(i + 1)
  }

  /** `strings.SplitN(s, sep, 2)[1]`: everything after the first separator. The
      index `[1]` is out of range when `s` has no separator; that panic is `None`. */
  function AfterFirst(s: string, sep: char): (r: Option<string>)
    ensures r.None? <==> sep !in s
    ensures r.Some? ==>
              |r.value| < |s|
              && s == s[..|s| - |r.value| - 1] + [sep] + r.value
              && sep !in s[..|s| - |r.value| - 1]
  {
    match IndexOf(s, sep)
    case None => None
    case Some(i) =>
      assert s == s[..i] + [sep] + s[i + 1..];
      Some(s[i + 1..])
  }

  /** `strings.Split(s, sep)[1]`: the field between the first and the second
      separator (or the end of `s`). Same panic as `AfterFirst` without a separator. */
  function SecondField(s: string, sep: char): (r: Option<string>)
    ensures r.None? <==> sep !in s
    ensures r.Some? ==> sep !in r.value
    ensures r.Some? ==>
              var rest := AfterFirst(s, sep).value;
              r.value <= rest && (|r.value| == |rest| || rest[|r.value|] == sep)
  {
    match AfterFirst(s, sep)
    case None => None
    case Some(rest) =>
      match IndexOf(rest, sep)
      case None => Some(rest)
      case Some(j) => Some(rest[..j])
  }

  lemma IndexOfAfterPrefix(pre: string, c: char, rest: string)
    requires c !in pre
    ensures IndexOf(pre + [c] + rest, c) == Some(|pre|)
  {
    var s := pre + [c] + rest;
    assert s[|pre|] == c;
    assert s[..|pre|] == pre;
  }

  lemma SecondFieldOfTwoSeparators(pre: string, mid: string, tail: string, sep: char)
    requires sep !in pre && sep !in mid
    ensures AfterFirst(pre + [sep] + mid + [sep] + tail, sep) == Some(mid + [sep] + tail)
    ensures SecondField(pre + [sep] + mid + [sep] + tail, sep) == Some(mid)
  {
    var rest := mid + [sep] + tail;
    var s := pre + [sep] + rest;
    assert pre + [sep] + mid + [sep] + tail == s;
    IndexOfAfterPrefix(pre, sep, rest);
    assert s[|pre| + 1..] == rest;
    assert AfterFirst(s, sep) == Some(rest);
    IndexOfAfterPrefix(mid, sep, tail);
    assert rest[..|mid|] == mid;
  }

  /** `strings.ReplaceAll(s, pat, rep)`: a left-to-right scan replacing every
      non-overlapping occurrence of `pat`. */
  function ReplaceAll(s: string, pat: string, rep: string): string
    requires |pat| > 0
    decreases |s|
  {
    if |s| < |pat| then s
    else if s[..|pat|] == pat then rep + ReplaceAll(s[|pat|..], pat, rep)
    else [s[0]] + ReplaceAll(s[1..], pat, rep)
  }

  /** `pat` occurs in `s` starting at position `i`. */
  predicate OccursAt(s: string, pat: string, i: int) {
    0 <= i && i + |pat| <= |s| && s[i..i + |pat|] == pat
  }

  /** `pat` occurs somewhere in `s`. */
  predicate Contains(s: string, pat: string) {
    exists i :: 0 <= i <= |s| && OccursAt(s, pat, i)
  }

  lemma {:induction false} ReplaceAllWithoutPattern(s: string, pat: string, rep: string)
    requires |pat| > 0 && !Contains(s, pat)
    ensures ReplaceAll(s, pat, rep) == s
    decreases |s|
  {
    if |s| >= |pat| {
      assert !OccursAt(s, pat, 0) && s[0..|pat|] == s[..|pat|];
      if Contains(s[1..], pat) {
        var i :| 0 <= i <= |s[1..]| && OccursAt(s[1..], pat, i);
        assert 0 <= i && i + |pat| <= |s| - 1;
        assert s[i + 1..i + 1 + |pat|] == s[1..][i..i + |pat|];
        assert OccursAt(s, pat, i + 1);
      }
      ReplaceAllWithoutPattern(s[1..], pat, rep);
    }
  }

  /** Bytewise string order, Go's `<` on strings. Code-point order on `char`
      agrees with byte order on the UTF-8 encoding. */
  predicate Less(a: string, b: string)
    decreases |a|
  {
    if |a| == 0 then |b| > 0
    else if |b| == 0 then false
    else if a[0] == b[0] then Less(a[1..], b[1..])
    else a[0] < b[0]
  }

  lemma {:induction false} LessIrreflexive(a: string)
    ensures !Less(a, a)
    decreases |a|
  {
    if |a| > 0 {
      LessIrreflexive(a[1..]);
    }
  }

  lemma {:induction false} LessAsymmetric(a: string, b: string)
    ensures !(Less(a, b) && Less(b, a))
    decreases |a|
  {
    if |a| > 0 && |b| > 0 && a[0] == b[0] {
      LessAsymmetric(a[1..], b[1..]);
    }
  }

  lemma {:induction false} LessTransitive(a: string, b: string, c: string)
    requires Less(a, b) && Less(b, c)
    ensures Less(a, c)
    decreases |a|
  {
    if |a| > 0 && a[0] == b[0] && b[0] == c[0] {
      LessTransitive(a[1..], b[1..], c[1..]);
    }
  }

  lemma {:induction false} LessTotal(a: string, b: string)
    requires a != b
    ensures Less(a, b) || Less(b, a)
    decreases |a|
  {
    if |a| > 0 && |b| > 0 && a[0] == b[0] {
      assert a == [a[0]] + a[1..] && b == [b[0]] + b[1..];
      LessTotal(a[1..], b[1..]);
    }
  }
}
