/** Digit grouping: `groups` of SafeUIKit/SafeUIKit/TokenFormatter.swift and the in-place insertion of
    SafeUIKit/SafeUIKit/TokenNumberFormatter.swift. */
module Grouping {

  /** `stride(from:to:by:)`. */
  function Stride(from: nat, end: nat, step: nat): seq<nat>
    requires step > 0
    decreases if from < end then end - from else 0
  {
    if from < end then [from] + Stride(from + step, end, step) else []
  }

  function Boundaries(count: nat, size: nat): seq<nat>
    requires size > 0
  {
    Stride(0, count, size) + [count]
  }

  ghost predicate Rising(b: seq<nat>) {
    forall i, j | 0 <= i < j < |b| :: b[i] < b[j]
  }

  /** Boundaries are offsets from the end, from zero up to the length. */
  lemma {:induction false} StrideRises(from: nat, end: nat, step: nat)
    requires step > 0 && from < end
    ensures var b := Stride(from, end, step) + [end];
      |b| >= 2 && b[0] == from && Rising(b) && forall i | 0 <= i < |b| :: b[i] <= end
    decreases end - from
  {
    var rest := Stride(from + step, end, step) + [end];
    assert Stride(from, end, step) + [end] == [from] + rest;
    if from + step < end {
      StrideRises(from + step, end, step);
    }
  }

  function GroupAt(s: string, b: seq<nat>, i: nat): string
    requires i + 1 < |b| && b[i] <= b[i + 1] <= |s|
  {
    s[|s| - b[i + 1]..|s| - b[i]]
  }

  /** Boundaries, the ranges between them reversed, substrings counted from the end. */
  function Ranges(s: string, size: nat): seq<string>
    requires size > 0 && s != ""
  {
    var b := Boundaries(|s|, size);
    StrideRises(0, |s|, size);
    seq(|b| - 1, j requires 0 <= j < |b| - 1 => GroupAt(s, b, |b| - 2 - j))
  }

  function Groups(s: string, size: nat): seq<string>
    requires size > 0
  {
    if |s| <= size then [s] else Ranges(s, size)
  }

  /** The same groups by recursion from the end of the string. */
  function Chunks(s: string, size: nat): seq<string>
    requires size > 0
    decreases |s|
  {
    if |s| <= size then [s] else Chunks(s[..|s| - size], size) + [s[|s| - size..]]
  }

  lemma {:induction false} StrideShift(from: nat, end: nat, step: nat, shift: nat)
    requires step > 0
    ensures |Stride(from + shift, end + shift, step)| == |Stride(from, end, step)|
    ensures forall i | 0 <= i < |Stride(from, end, step)| ::
              Stride(from + shift, end + shift, step)[i] == Stride(from, end, step)[i] + shift
    decreases if from < end then end - from else 0
  {
    if from < end {
      StrideShift(from + step, end, step, shift);
    }
  }

  lemma BoundariesStep(n: nat, size: nat)
    requires 0 < size < n
    ensures |Boundaries(n, size)| == |Boundaries(n - size, size)| + 1
    ensures Boundaries(n, size)[0] == 0 && Boundaries(n - size, size)[0] == 0
    ensures forall i | 1 <= i < |Boundaries(n, size)| ::
              Boundaries(n, size)[i] == Boundaries(n - size, size)[i - 1] + size
  {
    StrideShift(0, n - size, size, size);
    assert Stride(0, n, size) == [0] + Stride(size, n, size);
  }

  lemma GroupShift(s: string, rest: string, size: nat, b: seq<nat>, c: seq<nat>, i: nat)
    requires size <= |s| && rest == s[..|s| - size]
    requires i + 1 < |c| && i + 2 < |b| && c[i] <= c[i + 1] <= |rest|
    requires b[i + 1] == c[i] + size && b[i + 2] == c[i + 1] + size
    ensures GroupAt(s, b, i + 1) == GroupAt(rest, c, i)
  {}

  lemma GroupBefore(s: string, rest: string, size: nat, b: seq<nat>, c: seq<nat>, j: nat)
    requires size <= |s| && rest == s[..|s| - size]
    requires |c| >= 2 && |b| == |c| + 1 && j < |c| - 1
    requires Rising(b) && Rising(c) && b[|b| - 1] == |s| && c[|c| - 1] == |rest|
    requires forall i | 1 <= i < |b| :: b[i] == c[i - 1] + size
    ensures 0 <= b[|b| - 2 - j] <= b[|b| - 1 - j] <= |s| && 0 <= c[|c| - 2 - j] <= c[|c| - 1 - j] <= |rest|
    ensures GroupAt(s, b, |b| - 2 - j) == GroupAt(rest, c, |c| - 2 - j)
  {
    var i := |c| - 2 - j;
    assert b[i + 1] == c[i] + size && b[(i + 1) + 1] == c[i + 1] + size;
    GroupShift(s, rest, size, b, c, i);
  }

  lemma RangesByGroup(s: string, size: nat)
    requires size > 0 && s != ""
    ensures var b := Boundaries(|s|, size);
      && |b| >= 2 && Rising(b) && b[0] == 0 && b[|b| - 1] == |s| && |Ranges(s, size)| == |b| - 1
      && forall j | 0 <= j < |b| - 1 :: Ranges(s, size)[j] == GroupAt(s, b, |b| - 2 - j)
  {
    hide Boundaries;
    BoundariesRise(|s|, size);
  }

  lemma RangesStep(s: string, size: nat)
    requires 0 < size < |s|
    ensures Ranges(s, size) == Ranges(s[..|s| - size], size) + [s[|s| - size..]]
  {
    hide Boundaries, Ranges, Rising, GroupAt;
    var n := |s|;
    var rest, b, c := s[..n - size], Boundaries(n, size), Boundaries(n - size, size);
    RangesByGroup(s, size);
    RangesByGroup(rest, size);
    BoundariesStep(n, size);
    var g, h := Ranges(s, size), Ranges(rest, size);
    forall j | 0 <= j < |h| ensures g[j] == h[j] {
      GroupBefore(s, rest, size, b, c, j);
    }
    assert b[1] == c[0] + size;
    LastGroup(s, size, b);
    assert g[|g| - 1] == GroupAt(s, b, 0);
    assert g == h + [s[n - size..]];
  }

  lemma LastGroup(s: string, size: nat, b: seq<nat>)
    requires size <= |s| && |b| >= 2 && b[0] == 0 && b[1] == size
    ensures GroupAt(s, b, 0) == s[|s| - size..]
  {}

  lemma BoundariesRise(n: nat, size: nat)
    requires 0 < size && 0 < n
    ensures |Boundaries(n, size)| >= 2 && Rising(Boundaries(n, size))
    ensures Boundaries(n, size)[0] == 0 && Boundaries(n, size)[|Boundaries(n, size)| - 1] == n
  {
    StrideRises(0, n, size);
  }

  lemma ShortRanges(s: string, size: nat)
    requires 0 < |s| <= size
    ensures Ranges(s, size) == [s]
  {
    assert Stride(size, |s|, size) == [];
    assert Boundaries(|s|, size) == [0, |s|];
    assert GroupAt(s, [0, |s|], 0) == s;
  }

  /** Taking one full group off the end leaves the groups of the rest. */
  lemma GroupsStep(s: string, size: nat)
    requires 0 < size < |s|
    ensures Groups(s, size) == Groups(s[..|s| - size], size) + [s[|s| - size..]]
  {
    hide Ranges;
    RangesStep(s, size);
    if |s| - size <= size {
      ShortRanges(s[..|s| - size], size);
    }
  }

  lemma {:induction false} GroupsAreChunks(s: string, size: nat)
    requires size > 0
    ensures Groups(s, size) == Chunks(s, size)
    decreases |s|
  {
    hide Groups;
    if |s| > size {
      GroupsStep(s, size);
      GroupsAreChunks(s[..|s| - size], size);
    } else {
      ShortGroups(s, size);
    }
  }

  lemma ShortGroups(s: string, size: nat)
    requires |s| <= size && size > 0
    ensures Groups(s, size) == [s]
  {}

  function Concat(parts: seq<string>): string {
    if parts == [] then "" else Concat(parts[..|parts| - 1]) + parts[|parts| - 1]
  }

  /** `joined(separator:)`. */
  function Join(parts: seq<string>, separator: string): string {
    if parts == [] then ""
    else if |parts| == 1 then parts[0]
    else Join(parts[..|parts| - 1], separator) + separator + parts[|parts| - 1]
  }

  /** The groups spell the string, and all but the first are full. */
  lemma {:induction false} GroupsPartition(s: string, size: nat)
    requires size > 0
    ensures Concat(Groups(s, size)) == s
    ensures |Groups(s, size)| > 0
    ensures forall i | 1 <= i < |Groups(s, size)| :: |Groups(s, size)[i]| == size
    ensures |Groups(s, size)[0]| <= size
    ensures s != "" ==> Groups(s, size)[0] != ""
    decreases |s|
  {
    hide Groups;
    if |s| > size {
      GroupsStep(s, size);
      var init, last := s[..|s| - size], s[|s| - size..];
      GroupsPartition(init, size);
      var g := Groups(init, size) + [last];
      assert g[..|g| - 1] == Groups(init, size);
      assert s == init + last;
    } else {
      ShortGroups(s, size);
      assert [s][..0] == [];
    }
  }

  lemma JoinGroupsStep(s: string, size: nat, separator: string)
    requires 0 < size < |s|
    ensures Join(Groups(s, size), separator) ==
            Join(Groups(s[..|s| - size], size), separator) + separator + s[|s| - size..]
  {
    hide Groups;
    GroupsStep(s, size);
    GroupsPartition(s[..|s| - size], size);
    var init := Groups(s[..|s| - size], size);
    var g := init + [s[|s| - size..]];
    assert g[..|g| - 1] == init;
  }

  lemma JoinShort(s: string, size: nat, separator: string)
    requires |s| <= size && size > 0
    ensures Join(Groups(s, size), separator) == s
  {
    hide Groups;
    ShortGroups(s, size);
  }

  lemma JoinPrefix(integer: string, index: nat, size: nat, separator: string)
    requires 0 < index && 0 < size && index + size <= |integer|
    ensures Join(Groups(integer[..index + size], size), separator) ==
            Join(Groups(integer[..index], size), separator) + separator + integer[index..index + size]
  {
    hide Groups, Join;
    var part := integer[..index + size];
    JoinGroupsStep(part, size, separator);
    assert part[..|part| - size] == integer[..index] && part[|part| - size..] == integer[index..index + size];
  }

  lemma Inserted(integer: string, grouped: string, done: string, index: nat, end: nat, separator: string)
    requires index <= end <= |integer| && grouped == integer[..end] + done
    ensures grouped[..index] + separator + grouped[index..] ==
            integer[..index] + (separator + integer[index..end] + done)
  {
    assert grouped[..index] == integer[..index];
    assert grouped[index..] == integer[index..end] + done;
  }

  /** The older formatter's loop, inserting one character at a time from the right, builds the joined groups. */
  method AddIntegerGrouping(integer: string, groupSize: nat, separator: char) returns (grouped: string)
    requires groupSize > 0
    ensures grouped == Join(Groups(integer, groupSize), [separator])
  {
    hide Groups, Join;
    grouped := integer;
    // The insertion index, counted from the start; negative stands for nil.
    var index := |grouped| - groupSize;
    ghost var done := "";
    ghost var end := |integer|;
    assert integer[..end] == integer;
    while index > 0
      invariant 0 <= end <= |integer| && index == end - groupSize
      invariant grouped == integer[..end] + done
      invariant Join(Groups(integer[..end], groupSize), [separator]) + done ==
                Join(Groups(integer, groupSize), [separator])
      decreases index
    {
      JoinPrefix(integer, index, groupSize, [separator]);
      Inserted(integer, grouped, done, index, end, [separator]);
      done := [separator] + integer[index..end] + done;
      grouped := grouped[..index] + [separator] + grouped[index..];
      end := index;
      index := index - groupSize;
    }
    JoinShort(integer[..end], groupSize, [separator]);
  }
}
