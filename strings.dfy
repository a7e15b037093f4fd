/** String operations the loader layer relies on: substring search (as Go's
    strings.Contains) and newline-separated joining, with the splitting that undoes it. */
module Strings {

  /** `sub` occurs in `s` starting at index `i`. */
  predicate OccursAt(s: string, sub: string, i: nat) {
    i + |sub| <= |s| && s[i..i + |sub|] == sub
  }

  /** `sub` is a substring of `s`; the empty string is a substring of every string. */
  predicate Contains(s: string, sub: string)
    decreases |s|
  {
    sub <= s || (|s| > 0 && Contains(s[1..], sub))
  }

  /** A slice of the tail is the slice of the whole shifted by one. */
  lemma TailSlice(s: string, a: nat, b: nat)
    requires a <= b < |s|
    ensures s[1..][a..b] == s[a + 1..b + 1]
  {
    forall k | 0 <= k < b - a ensures s[1..][a..b][k] == s[a + 1..b + 1][k] {
    }
  }

  /** Contains agrees with the positional definition of a substring, in both directions. */
  lemma {:induction false} ContainsIffOccurs(s: string, sub: string)
    ensures Contains(s, sub) <==> exists i: nat :: OccursAt(s, sub, i)
    decreases |s|
  {
    if sub <= s {
      assert s[0..|sub|] == sub;
      assert OccursAt(s, sub, 0);
    } else if |s| == 0 {
    } else {
      ContainsIffOccurs(s[1..], sub);
      if Contains(s[1..], sub) {
        var j: nat :| OccursAt(s[1..], sub, j);
        TailSlice(s, j, j + |sub|);
        assert OccursAt(s, sub, j + 1);
      }
      forall i: nat | OccursAt(s, sub, i) ensures Contains(s, sub) {
        if i > 0 {
          TailSlice(s, i - 1, i - 1 + |sub|);
          assert OccursAt(s[1..], sub, i - 1);
        }
      }
    }
  }

  /** The parts, in order, with one newline between each neighbouring pair and none
      before the first or after the last. */
  function Join(parts: seq<string>): string {
    if |parts| == 0 then ""
    else if |parts| == 1 then parts[0]
    else Join(parts[..|parts| - 1]) + "\n" + parts[|parts| - 1]
  }

  /** The index of the last newline of `s`. */
  function LastNewline(s: string): (k: nat)
    requires '\n' in s
    ensures k < |s| && s[k] == '\n'
    ensures '\n' !in s[k + 1..]
  {
    if s[|s| - 1] == '\n' then |s| - 1
    else
      assert s == s[..|s| - 1] + [s[|s| - 1]];
      LastNewline(s[..|s| - 1])
  }

  /** A join starts with its first part and ends with its last part. */
  lemma {:induction false} JoinEnds(parts: seq<string>)
    requires |parts| >= 1
    ensures parts[0] <= Join(parts)
    ensures |parts[|parts| - 1]| <= |Join(parts)|
    ensures Join(parts)[|Join(parts)| - |parts[|parts| - 1]|..] == parts[|parts| - 1]
    decreases |parts|
  {
    if |parts| > 1 {
      var init := parts[..|parts| - 1];
      JoinEnds(init);
      assert init[0] == parts[0];
    }
  }

  /** A newline with no newline after it is the last newline. */
  lemma LastNewlineAt(s: string, k: nat)
    requires k < |s| && s[k] == '\n' && '\n' !in s[k + 1..]
    ensures LastNewline(s) == k
  {
  }

  /** The newline-free pieces of `s`, in order: the inverse of Join. */
  function Split(s: string): (parts: seq<string>)
    ensures |parts| >= 1
    decreases |s|
  {
    if '\n' !in s then [s]
    else
      var k := LastNewline(s);
      Split(s[..k]) + [s[k + 1..]]
  }

  predicate NoNewlines(parts: seq<string>) {
    forall i :: 0 <= i < |parts| ==> '\n' !in parts[i]
  }

  /** Splitting a join gives back the parts, provided there is at least one part and
      no part itself holds a newline. */
  lemma {:induction false} SplitJoin(parts: seq<string>)
    requires |parts| >= 1 && NoNewlines(parts)
    ensures Split(Join(parts)) == parts
    decreases |parts|
  {
    if |parts| == 1 {
      assert '\n' !in parts[0];
    } else {
      var init, last := parts[..|parts| - 1], parts[|parts| - 1];
      var j := Join(init);
      var s := Join(parts);
      assert s == j + "\n" + last;
      assert s[|j|] == '\n';
      assert s[|j| + 1..] == last;
      LastNewlineAt(s, |j|);
      assert s[..|j|] == j;
      SplitJoin(init);
      assert parts == init + [last];
    }
  }
}
