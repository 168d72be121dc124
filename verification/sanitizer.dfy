/** The character allow-lists behind the program's `ReplaceAllString(s, "")`
    calls: every run of characters outside the class is deleted, which is the same
    as deleting each such character on its own. */
module Sanitizer {

  /** `Wide` is `[A-Za-z0-9 +_#!()=-]` (the later revisions); `Narrow` is
      `[A-Za-z0-9 ]` (the first revision). */
  datatype AllowList = Wide | Narrow

  predicate Allowed(a: AllowList, c: char) {
    || ('A' <= c <= 'Z')
    || ('a' <= c <= 'z')
    || ('0' <= c <= '9')
    || c == ' '
    || (a == Wide && (c == '+' || c == '_' || c == '#' || c == '!' || c == '(' || c == ')' || c == '=' || c == '-'))
  }

  /** Every character of `s` is on the list. */
  predicate AllAllowed(a: AllowList, s: string) {
    forall i :: 0 <= i < |s| ==> Allowed(a, s[i])
  }

  /** Keeps exactly the allowed characters of `s`, in order. */
  function Filter(a: AllowList, s: string): (r: string)
    ensures |r| <= |s|
    ensures AllAllowed(a, r)
    ensures forall c :: c in r ==> c in s
    ensures forall c :: c in s && Allowed(a, c) ==> c in r
  {
    if |s| == 0 then []
    else if Allowed(a, s[0]) then [s[0]] + Filter(a, s[1..])
    else Filter(a, s[1..])
  }

  lemma {:induction false} FilterConcat(a: AllowList, s: string, t: string)
    ensures Filter(a, s + t) == Filter(a, s) + Filter(a, t)
    decreases |s|
  {
    if |s| > 0 {
      assert (s + t)[0] == s[0] && (s + t)[1..] == s[1..] + t;
      FilterConcat(a, s[1..], t);
      if Allowed(a, s[0]) {
        assert Filter(a, s + t) == [s[0]] + (Filter(a, s[1..]) + Filter(a, t));
      }
    } else {
      assert s + t == t;
    }
  }

  /** A string already made of allowed characters is left as it is, and only such
      strings are. */
  lemma {:induction false} FilterFixedPoints(a: AllowList, s: string)
    ensures Filter(a, s) == s <==> AllAllowed(a, s)
    decreases |s|
  {
    if |s| > 0 && AllAllowed(a, s) {
      assert AllAllowed(a, s[1..]);
      FilterFixedPoints(a, s[1..]);
      assert s == [s[0]] + s[1..];
    }
  }

  lemma FilterIdempotent(a: AllowList, s: string)
    ensures Filter(a, Filter(a, s)) == Filter(a, s)
  {
    FilterFixedPoints(a, Filter(a, s));
  }

  /** The narrow list is contained in the wide one, so filtering with the wide list
      first changes nothing about the narrow result. */
  lemma {:induction false} NarrowAfterWide(s: string)
    ensures Filter(Narrow, Filter(Wide, s)) == Filter(Narrow, s)
    decreases |s|
  {
    if |s| > 0 {
      NarrowAfterWide(s[1..]);
    }
  }
}
