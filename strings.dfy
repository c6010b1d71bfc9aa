/** Text primitives the scrapers use: substring search, Python's
    `str.replace(p, '')` and the newline-to-space rewrite of table cells. */
module Strings {
  import opened Outcomes

  /** `p` occurs in `s` starting at index `i`. */
  predicate OccursAt(s: string, p: string, i: nat)
  {
    i + |p| <= |s| && s[i..i + |p|] == p
  }

  ghost predicate Contains(s: string, p: string)
  {
    exists i: nat :: OccursAt(s, p, i)
  }

  /** The first index at or after `from` where `p` occurs, as a left-to-right
      scan (the way a regular-expression search tries each start in turn). */
  function IndexOf(s: string, p: string, from: nat): (r: Option<nat>)
    requires p != []
    ensures r.Some? ==> from <= r.value && OccursAt(s, p, r.value)
    ensures r.Some? ==> forall j: nat :: from <= j < r.value ==> !OccursAt(s, p, j)
    ensures r.None? ==> forall j: nat :: from <= j ==> !OccursAt(s, p, j)
    decreases |s| - from
  {
    if from + |p| > |s| then None
    else if s[from..from + |p|] == p then Some(from)
    else IndexOf(s, p, from + 1)
  }

  /** IndexOf finds an occurrence that no earlier one precedes. */
  lemma IndexOfAt(s: string, p: string, from: nat, i: nat)
    requires p != [] && from <= i && OccursAt(s, p, i)
    requires forall j: nat :: from <= j < i ==> !OccursAt(s, p, j)
    ensures IndexOf(s, p, from) == Some(i)
  {
  }

  /** `p` occurs where it is placed, between any two texts. */
  lemma OccursBetween(a: string, p: string, b: string)
    ensures OccursAt(a + p + b, p, |a|)
  {
    assert (a + p + b)[|a|..|a| + |p|] == p;
  }

  /** Python's `s.replace(p, '')`: one left-to-right pass that deletes every
      non-overlapping occurrence of `p`. */
  function DeleteAll(s: string, p: string): (r: string)
    requires p != []
    ensures |r| <= |s|
    decreases |s|
  {
    if |s| < |p| then s
    else if s[..|p|] == p then DeleteAll(s[|p|..], p)
    else [s[0]] + DeleteAll(s[1..], p)
  }

  lemma OccursAtTail(s: string, p: string, i: nat)
    requires s != []
    ensures OccursAt(s[1..], p, i) <==> OccursAt(s, p, i + 1)
  {
    if i + |p| <= |s[1..]| {
      assert s[1..][i..i + |p|] == s[i + 1..i + 1 + |p|];
    }
  }

  /** A text in which `p` does not occur is left unchanged. */
  lemma {:induction false} DeleteAllAbsent(s: string, p: string)
    requires p != []
    requires !Contains(s, p)
    ensures DeleteAll(s, p) == s
    decreases |s|
  {
    if |s| >= |p| {
      assert !OccursAt(s, p, 0);
      assert s[..|p|] == s[0..0 + |p|];
      forall i: nat ensures !OccursAt(s[1..], p, i) {
        OccursAtTail(s, p, i);
      }
      DeleteAllAbsent(s[1..], p);
      assert s == [s[0]] + s[1..];
    }
  }

  /** One leading occurrence of `p` in front of a text free of `p` is deleted,
      leaving exactly that text. */
  lemma DeleteAllLeading(s: string, p: string)
    requires p != []
    requires !Contains(s, p)
    ensures DeleteAll(p + s, p) == s
  {
    var t := p + s;
    assert t[..|p|] == p;
    assert t[|p|..] == s;
    DeleteAllAbsent(s, p);
  }

  /** A single pass can create a new occurrence: deleting the inner copy of `p`
      from `"/" + p + p[1..]` leaves `p` itself, when `p` starts with '/' and
      its second character is not '/'. */
  lemma DeleteAllCanLeaveOccurrence(p: string)
    requires |p| >= 2 && p[0] == '/' && p[1] != '/'
    ensures Contains(DeleteAll("/" + p + p[1..], p), p)
  {
    var tail := p[1..];
    var rest := p + tail;
    var s := "/" + rest;
    assert s[..|p|][1] == p[0];
    assert s[..|p|] != p;
    assert s[1..] == rest;
    assert DeleteAll(s, p) == [s[0]] + DeleteAll(rest, p);
    assert rest[..|p|] == p;
    assert rest[|p|..] == tail;
    assert DeleteAll(rest, p) == DeleteAll(tail, p);
    assert DeleteAll(tail, p) == tail;
    assert [s[0]] + tail == p;
    assert s == "/" + p + p[1..];
    assert OccursAt(DeleteAll(s, p), p, 0);
  }

  /** Python's `s.replace('\n', ' ')`: every newline becomes one space and
      nothing else changes. */
  function NewlinesToSpaces(s: string): (r: string)
    ensures |r| == |s|
    ensures forall i :: 0 <= i < |s| && s[i] != '\n' ==> r[i] == s[i]
    ensures forall i :: 0 <= i < |s| && s[i] == '\n' ==> r[i] == ' '
    ensures '\n' !in r
  {
    if s == [] then []
    else [if s[0] == '\n' then ' ' else s[0]] + NewlinesToSpaces(s[1..])
  }
}
