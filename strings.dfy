/**
 * The few string operations the tools rely on, as Python defines them for a
 * one-character separator: `s.count(c)`, `s.replace(c, '')`, `s.split(c)` and
 * `sep.join(parts)`. Strings are sequences of characters.
 *
 * Every recursive definition peels off the LAST element, so that a loop that
 * walks a sequence from left to right and appends matches it step by step.
 */
module Strings {

  /** `s.count(c)` */
  function Count(s: string, c: char): nat
  {
    if s == [] then 0 else Count(s[..|s| - 1], c) + (if s[|s| - 1] == c then 1 else 0)
  }

  /** `s.replace(c, '')` */
  function Remove(s: string, c: char): string
  {
    if s == [] then [] else Remove(s[..|s| - 1], c) + (if s[|s| - 1] == c then [] else [s[|s| - 1]])
  }

  /** `s.split(c)`: the pieces between occurrences of `c`; always one more piece than occurrences. */
  function Split(s: string, c: char): (pieces: seq<string>)
    ensures |pieces| > 0
  {
    if s == [] then [""]
    else
      var init := Split(s[..|s| - 1], c);
      if s[|s| - 1] == c then init + [""]
      else init[..|init| - 1] + [init[|init| - 1] + [s[|s| - 1]]]
  }

  /** `sep.join(parts)` */
  function Join(parts: seq<string>, sep: string): string
  {
    if parts == [] then ""
    else if |parts| == 1 then parts[0]
    else Join(parts[..|parts| - 1], sep) + sep + parts[|parts| - 1]
  }

  /** `''.join(parts)`: the parts one after another. */
  function Concat(parts: seq<string>): string
  {
    Join(parts, "")
  }

  lemma {:induction false} CountAppend(a: string, b: string, c: char)
    ensures Count(a + b, c) == Count(a, c) + Count(b, c)
  {
    if b != [] {
      assert (a + b)[..|a + b| - 1] == a + b[..|b| - 1];
      CountAppend(a, b[..|b| - 1], c);
    } else {
      assert a + b == a;
    }
  }

  lemma {:induction false} RemoveAppend(a: string, b: string, c: char)
    ensures Remove(a + b, c) == Remove(a, c) + Remove(b, c)
  {
    if b != [] {
      assert (a + b)[..|a + b| - 1] == a + b[..|b| - 1];
      RemoveAppend(a, b[..|b| - 1], c);
    } else {
      assert a + b == a;
    }
  }

  /** Removing `c` shortens the string by exactly the number of occurrences of `c`, and leaves none. */
  lemma {:induction false} RemoveLength(s: string, c: char)
    ensures |Remove(s, c)| == |s| - Count(s, c)
    ensures c !in Remove(s, c)
  {
    if s != [] {
      RemoveLength(s[..|s| - 1], c);
    }
  }

  /** A string without `c` is left as it is. */
  lemma {:induction false} RemoveAbsent(s: string, c: char)
    requires c !in s
    ensures Remove(s, c) == s
    ensures Count(s, c) == 0
  {
    if s != [] {
      assert s == s[..|s| - 1] + [s[|s| - 1]];
      RemoveAbsent(s[..|s| - 1], c);
    }
  }

  /** `len(s.split(c)) == s.count(c) + 1`, and no piece contains the separator. */
  lemma {:induction false} SplitCount(s: string, c: char)
    ensures |Split(s, c)| == Count(s, c) + 1
    ensures forall i :: 0 <= i < |Split(s, c)| ==> c !in Split(s, c)[i]
  {
    if s != [] {
      SplitCount(s[..|s| - 1], c);
    }
  }

  lemma JoinSnoc(parts: seq<string>, x: string, sep: string)
    requires parts != []
    ensures Join(parts + [x], sep) == Join(parts, sep) + sep + x
  {
    assert (parts + [x])[..|parts + [x]| - 1] == parts;
  }

  /** Appending a part to `''.join(parts)` appends its text. */
  lemma ConcatSnoc(parts: seq<string>, x: string)
    ensures Concat(parts + [x]) == Concat(parts) + x
  {
    if parts == [] {
      assert parts + [x] == [x];
    } else {
      JoinSnoc(parts, x, "");
    }
  }

  /** Joining the pieces of a split with the separator gives back the string: `c.join(s.split(c)) == s`. */
  lemma {:induction false} JoinSplit(s: string, c: char)
    ensures Join(Split(s, c), [c]) == s
  {
    if s != [] {
      var t, x := s[..|s| - 1], s[|s| - 1];
      var init := Split(t, c);
      JoinSplit(t, c);
      assert s == t + [x];
      if x == c {
        JoinSnoc(init, "", [c]);
      } else {
        var n := |init|;
        if n == 1 {
          assert Split(s, c) == [init[0] + [x]];
        } else {
          assert init == init[..n - 1] + [init[n - 1]];
          JoinSnoc(init[..n - 1], init[n - 1], [c]);
          JoinSnoc(init[..n - 1], init[n - 1] + [x], [c]);
        }
      }
    }
  }
}
