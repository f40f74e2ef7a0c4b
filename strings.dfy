/**
 * The JavaScript string operations the editor and the key mapper rely on:
 * `split` and `join` on one separator character, removal of every occurrence
 * of a character (`replace` with a global pattern), `startsWith`, a first
 * occurrence `replace` with the empty string, ASCII lower-casing, and the set
 * of characters that `.` in a regular expression refuses to match.
 */
module Strings {

  /** Hard line break: what Enter appends. */
  const HardBreak: char := '\n'
  /** Soft line break inserted by wrapping: U+2028 LINE SEPARATOR. */
  const SoftBreak: char := '\U{2028}'

  /** The characters `.` does not match in a regular expression without the `s` flag. */
  predicate IsLineTerminator(c: char)
  {
    c == '\n' || c == '\r' || c == '\U{2028}' || c == '\U{2029}'
  }

  predicate TerminatorFree(s: string)
  {
    forall i :: 0 <= i < |s| ==> !IsLineTerminator(s[i])
  }

  // ---------------------------------------------------------------------------
  // split and join

  /** `s.split(sep)` for a one-character separator: never empty, pieces free of `sep`. */
  function Split(s: string, sep: char): (parts: seq<string>)
    ensures |parts| >= 1
    ensures forall i :: 0 <= i < |parts| ==> sep !in parts[i]
  {
    if |s| == 0 then [""]
    else
      var rest := Split(s[1..], sep);
      if s[0] == sep then [""] + rest
      else [[s[0]] + rest[0]] + rest[1..]
  }

  /** `parts.join(sep)`. */
  function Join(parts: seq<string>, sep: char): (r: string)
  {
    if |parts| == 0 then ""
    else if |parts| == 1 then parts[0]
    else parts[0] + [sep] + Join(parts[1..], sep)
  }

  lemma {:induction false} SplitNoSep(s: string, sep: char)
    requires sep !in s
    ensures Split(s, sep) == [s]
  {
    if |s| > 0 {
      SplitNoSep(s[1..], sep);
      assert [s[0]] + s[1..] == s;
    }
  }

  /** Splitting `x + y` where `x` holds no separator glues `x` to the first piece of `y`. */
  lemma {:induction false} SplitPrefix(x: string, y: string, sep: char)
    requires sep !in x
    ensures Split(x + y, sep) == [x + Split(y, sep)[0]] + Split(y, sep)[1..]
  {
    if |x| > 0 {
      assert (x + y)[1..] == x[1..] + y;
      SplitPrefix(x[1..], y, sep);
      assert [x[0]] + (x[1..] + Split(y, sep)[0]) == x + Split(y, sep)[0];
    } else {
      assert x + y == y;
      assert x + Split(y, sep)[0] == Split(y, sep)[0];
    }
  }

  /** `split` undoes `join` when no part contains the separator. */
  lemma {:induction false} SplitJoin(parts: seq<string>, sep: char)
    requires |parts| >= 1
    requires forall i :: 0 <= i < |parts| ==> sep !in parts[i]
    ensures Split(Join(parts, sep), sep) == parts
  {
    if |parts| == 1 {
      SplitNoSep(parts[0], sep);
    } else {
      SplitJoin(parts[1..], sep);
      var tail := [sep] + Join(parts[1..], sep);
      assert Join(parts, sep) == parts[0] + tail;
      SplitPrefix(parts[0], tail, sep);
      assert tail[1..] == Join(parts[1..], sep);
      assert Split(tail, sep) == [""] + parts[1..];
      assert parts[0] + "" == parts[0];
    }
  }

  lemma {:induction false} JoinConsChar(c: char, parts: seq<string>, sep: char)
    requires |parts| >= 1
    ensures Join([[c] + parts[0]] + parts[1..], sep) == [c] + Join(parts, sep)
  {
    var ps := [[c] + parts[0]] + parts[1..];
    assert ps[1..] == parts[1..];
  }

  /** `join` undoes `split`. */
  lemma {:induction false} JoinSplit(s: string, sep: char)
    ensures Join(Split(s, sep), sep) == s
  {
    if |s| > 0 {
      JoinSplit(s[1..], sep);
      var rest := Split(s[1..], sep);
      if s[0] == sep {
        assert ([""] + rest)[1..] == rest;
        assert Join([""] + rest, sep) == "" + [sep] + Join(rest, sep);
      } else {
        JoinConsChar(s[0], rest, sep);
      }
      assert [s[0]] + s[1..] == s;
    }
  }

  /** Appending the separator opens a new, empty last piece. */
  lemma {:induction false} SplitAppendSep(s: string, sep: char)
    ensures Split(s + [sep], sep) == Split(s, sep) + [""]
  {
    if |s| > 0 {
      SplitAppendSep(s[1..], sep);
      assert (s + [sep])[1..] == s[1..] + [sep];
    }
  }

  /** Appending any other character extends the last piece. */
  lemma {:induction false} SplitAppendChar(s: string, c: char, sep: char)
    requires c != sep
    ensures var p := Split(s, sep);
            Split(s + [c], sep) == p[..|p| - 1] + [p[|p| - 1] + [c]]
  {
    if |s| > 0 {
      assert (s + [c])[1..] == s[1..] + [c];
      SplitAppendChar(s[1..], c, sep);
      var q := Split(s[1..], sep);
      if s[0] != sep && |q| == 1 {
        assert [s[0]] + (q[0] + [c]) == ([s[0]] + q[0]) + [c];
      }
    } else {
      assert s + [c] == [c];
      assert [c][1..] == [];
      assert Split([c], sep) == [[c] + ""] + [""][1..];
      assert [c] + "" == [c];
    }
  }

  /** A separator-free piece can be appended to the last piece of a join. */
  lemma {:induction false} JoinAppendToLast(parts: seq<string>, x: string, sep: char)
    requires |parts| >= 1
    ensures Join(parts[..|parts| - 1] + [parts[|parts| - 1] + x], sep) == Join(parts, sep) + x
  {
    if |parts| > 1 {
      var ps := parts[..|parts| - 1] + [parts[|parts| - 1] + x];
      JoinAppendToLast(parts[1..], x, sep);
      assert ps[1..] == parts[1..][..|parts[1..]| - 1] + [parts[1..][|parts[1..]| - 1] + x];
    }
  }

  lemma {:induction false} JoinAppendEmpty(parts: seq<string>, sep: char)
    requires |parts| >= 1
    ensures Join(parts + [""], sep) == Join(parts, sep) + [sep]
  {
    if |parts| > 1 {
      JoinAppendEmpty(parts[1..], sep);
      assert (parts + [""])[1..] == parts[1..] + [""];
    }
  }

  // ---------------------------------------------------------------------------
  // removing a character everywhere

  /** `s.replace(/c/g, "")`. */
  function Without(s: string, c: char): (r: string)
    ensures c !in r
    ensures |r| <= |s|
  {
    if |s| == 0 then ""
    else (if s[0] == c then "" else [s[0]]) + Without(s[1..], c)
  }

  lemma {:induction false} WithoutAbsent(s: string, c: char)
    requires c !in s
    ensures Without(s, c) == s
  {
    if |s| > 0 {
      WithoutAbsent(s[1..], c);
      assert [s[0]] + s[1..] == s;
    }
  }

  lemma {:induction false} WithoutConcat(a: string, b: string, c: char)
    ensures Without(a + b, c) == Without(a, c) + Without(b, c)
  {
    if |a| > 0 {
      WithoutConcat(a[1..], b, c);
      assert (a + b)[1..] == a[1..] + b;
    } else {
      assert a + b == b;
    }
  }

  /** Removing the separator from a join concatenates the (separator-free) parts. */
  lemma {:induction false} WithoutJoin(parts: seq<string>, sep: char)
    requires forall i :: 0 <= i < |parts| ==> sep !in parts[i]
    ensures Without(Join(parts, sep), sep) == Concat(parts)
  {
    if |parts| == 1 {
      WithoutAbsent(parts[0], sep);
      assert Concat(parts) == parts[0] + Concat([]);
    } else if |parts| > 1 {
      WithoutJoin(parts[1..], sep);
      WithoutConcat(parts[0] + [sep], Join(parts[1..], sep), sep);
      WithoutConcat(parts[0], [sep], sep);
      WithoutAbsent(parts[0], sep);
    }
  }

  /** Every part with `c` removed. */
  function WithoutEach(parts: seq<string>, c: char): (r: seq<string>)
    ensures |r| == |parts|
    ensures forall i :: 0 <= i < |parts| ==> r[i] == Without(parts[i], c)
  {
    seq(|parts|, i requires 0 <= i < |parts| => Without(parts[i], c))
  }

  /** Removing a character other than the separator can be done part by part. */
  lemma {:induction false} WithoutJoinEach(parts: seq<string>, sep: char, c: char)
    requires c != sep
    ensures Without(Join(parts, sep), c) == Join(WithoutEach(parts, c), sep)
  {
    if |parts| > 1 {
      WithoutJoinEach(parts[1..], sep, c);
      WithoutConcat(parts[0] + [sep], Join(parts[1..], sep), c);
      WithoutConcat(parts[0], [sep], c);
      assert WithoutEach(parts, c)[1..] == WithoutEach(parts[1..], c);
    }
  }

  /** A character that is neither the separator nor in any part is not in the join. */
  lemma {:induction false} JoinAvoids(parts: seq<string>, sep: char, c: char)
    requires c != sep
    requires forall i :: 0 <= i < |parts| ==> c !in parts[i]
    ensures c !in Join(parts, sep)
  {
    if |parts| > 1 {
      JoinAvoids(parts[1..], sep, c);
    }
  }

  function Concat(parts: seq<string>): (r: string)
  {
    if |parts| == 0 then "" else parts[0] + Concat(parts[1..])
  }

  /** Concatenation peels off its first part. */
  lemma ConcatCons(first: string, rest: seq<string>)
    ensures Concat([first] + rest) == first + Concat(rest)
  {
    assert ([first] + rest)[1..] == rest;
  }

  // ---------------------------------------------------------------------------
  // counting characters

  /** How many characters of `s` are hard or soft line breaks. */
  function Breaks(s: string): (n: nat)
    ensures n <= |s|
  {
    if |s| == 0 then 0
    else (if s[0] == HardBreak || s[0] == SoftBreak then 1 else 0) + Breaks(s[1..])
  }

  lemma {:induction false} BreaksConcat(a: string, b: string)
    ensures Breaks(a + b) == Breaks(a) + Breaks(b)
  {
    if |a| > 0 {
      BreaksConcat(a[1..], b);
      assert (a + b)[1..] == a[1..] + b;
    } else {
      assert a + b == b;
    }
  }

  /** Sum of the breaks inside the parts. */
  function BreaksIn(parts: seq<string>): (r: nat)
  {
    if |parts| == 0 then 0 else Breaks(parts[0]) + BreaksIn(parts[1..])
  }

  /** Joining with a break character adds one break between each pair of parts. */
  lemma {:induction false} BreaksJoin(parts: seq<string>, sep: char)
    requires |parts| >= 1
    requires sep == HardBreak || sep == SoftBreak
    ensures Breaks(Join(parts, sep)) == |parts| - 1 + BreaksIn(parts)
  {
    if |parts| > 1 {
      BreaksJoin(parts[1..], sep);
      BreaksConcat(parts[0] + [sep], Join(parts[1..], sep));
      BreaksConcat(parts[0], [sep]);
    }
  }

  // ---------------------------------------------------------------------------
  // prefixes, first-occurrence replacement, lower case

  /** `s.startsWith(p)`. */
  predicate StartsWith(s: string, p: string)
  {
    |p| <= |s| && s[..|p|] == p
  }

  /** `s.replace(pat, "")` with a string pattern: drops the first occurrence only. */
  function RemoveFirst(s: string, pat: string): (r: string)
    requires |pat| >= 1
    ensures |r| == |s| || |r| == |s| - |pat|
    decreases |s|
  {
    if |s| < |pat| then s
    else if s[..|pat|] == pat then s[|pat|..]
    else [s[0]] + RemoveFirst(s[1..], pat)
  }

  lemma RemoveFirstAtStart(s: string, pat: string)
    requires |pat| >= 1 && StartsWith(s, pat)
    ensures RemoveFirst(s, pat) == s[|pat|..]
  {
  }

  /** `pat` occurs in `s` starting at index `i`. */
  predicate OccursAt(s: string, pat: string, i: int)
  {
    0 <= i && i + |pat| <= |s| && s[i..i + |pat|] == pat
  }

  /** Where `pat` occurs nowhere in `s`, nothing is removed. */
  lemma {:induction false} RemoveFirstAbsent(s: string, pat: string)
    requires |pat| >= 1
    requires forall i :: !OccursAt(s, pat, i)
    ensures RemoveFirst(s, pat) == s
    decreases |s|
  {
    if |s| >= |pat| {
      assert !OccursAt(s, pat, 0);
      assert s[..|pat|] == s[0..|pat|];
      forall i ensures !OccursAt(s[1..], pat, i)
      {
        if 0 <= i && i + |pat| <= |s[1..]| {
          assert s[1..][i..i + |pat|] == s[i + 1..i + 1 + |pat|];
          assert !OccursAt(s, pat, i + 1);
        }
      }
      RemoveFirstAbsent(s[1..], pat);
      assert [s[0]] + s[1..] == s;
    }
  }

  /** ASCII lower case of one character. */
  function LowerChar(c: char): (l: char)
    ensures 'A' <= c <= 'Z' ==> 'a' <= l <= 'z'
    ensures !('A' <= c <= 'Z') ==> l == c
  {
    if 'A' <= c <= 'Z' then (c as int + 32) as char else c
  }

  /** `s.toLocaleLowerCase()`, restricted to ASCII. */
  function Lower(s: string): (r: string)
    ensures |r| == |s|
    ensures forall i :: 0 <= i < |s| ==> r[i] == LowerChar(s[i])
  {
    if |s| == 0 then "" else [LowerChar(s[0])] + Lower(s[1..])
  }
}
