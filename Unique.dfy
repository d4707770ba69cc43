/** The two line counters of Unique.java.  The Scanner over the input file is
    replaced by the sequence of lines it would return, in order. */
module Unique {
  import opened Shapes
  import opened Avl

  /** The distinct lines of s. */
  function Lines(s: seq<string>): set<string> {
    set x | x in s
  }

  predicate NoDuplicates(s: seq<string>) {
    forall i, j :: 0 <= i < j < |s| ==> s[i] != s[j]
  }

  /** The index of the first occurrence of x in s. */
  function First(s: seq<string>, x: string): (i: nat)
    requires x in s
    ensures i < |s| && s[i] == x && x !in s[..i]
  {
    if s[0] == x then 0
    else
      var i := 1 + First(s[1..], x);
      assert s[..i] == [s[0]] + s[1..][..i - 1];
      i
  }

  /** The lines of s, each once, in the order of their first occurrence: what
      naiveUnique collects in `seen`. */
  function Dedup(s: seq<string>): seq<string>
    decreases |s|
  {
    if s == [] then []
    else
      var d := Dedup(s[..|s| - 1]);
      if s[|s| - 1] in d then d else d + [s[|s| - 1]]
  }

  lemma {:induction false} FirstPrefix(p: seq<string>, x: string, y: string)
    requires y in p
    ensures First(p + [x], y) == First(p, y)
  {
    if p[0] != y {
      assert (p + [x])[1..] == p[1..] + [x];
      FirstPrefix(p[1..], x, y);
    }
  }

  /** A sequence without duplicates has as many elements as distinct ones. */
  lemma {:induction false} NoDuplicatesCount(d: seq<string>)
    requires NoDuplicates(d)
    ensures |Lines(d)| == |d|
  {
    if d != [] {
      var p, x := d[..|d| - 1], d[|d| - 1];
      assert d == p + [x];
      NoDuplicatesCount(p);
      assert Lines(d) == Lines(p) + {x};
      assert x !in Lines(p);
    }
  }

  /** `seen` holds every distinct line once, and so there are as many of
      them as distinct lines, at most one per line. */
  lemma {:induction false} DedupFacts(s: seq<string>)
    ensures var d := Dedup(s);
      NoDuplicates(d) && Lines(d) == Lines(s) && |d| == |Lines(s)| && |d| <= |s|
    decreases |s|
  {
    var d := Dedup(s);
    if s != [] {
      var p, x := s[..|s| - 1], s[|s| - 1];
      assert s == p + [x];
      DedupFacts(p);
      var e := Dedup(p);
      assert Lines(s) == Lines(p) + {x};
      if x !in e {
        assert d == e + [x];
        assert NoDuplicates(d) by {
          forall i, j | 0 <= i < j < |d| ensures d[i] != d[j] {
            if j == |e| {
              assert d[i] == e[i] && e[i] in Lines(p);
            } else {
              assert d[i] == e[i] && d[j] == e[j];
            }
          }
        }
      }
      NoDuplicatesCount(d);
    }
  }

  /** `seen` lists the lines in the order of their first occurrence. */
  lemma {:induction false} DedupOrder(s: seq<string>)
    ensures var d := Dedup(s);
      forall i, j :: 0 <= i < j < |d| ==> d[i] in s && d[j] in s && First(s, d[i]) < First(s, d[j])
    decreases |s|
  {
    var d := Dedup(s);
    if s != [] {
      var p, x := s[..|s| - 1], s[|s| - 1];
      assert s == p + [x];
      DedupOrder(p);
      DedupFacts(p);
      var e := Dedup(p);
      forall y | y in p
        ensures First(s, y) == First(p, y)
      {
        FirstPrefix(p, x, y);
      }
      if x !in e {
        assert d == e + [x];
        assert x !in Lines(e);
        assert x !in p;
        assert First(s, x) == |p|;
        forall i, j | 0 <= i < j < |d|
          ensures d[i] in s && d[j] in s && First(s, d[i]) < First(s, d[j])
        {
          if j < |e| {
            assert d[i] == e[i] && d[j] == e[j];
          } else {
            assert d[i] == e[i] && e[i] in Lines(p);
          }
        }
      }
    }
  }

  lemma LinesStep(s: seq<string>, j: nat)
    requires j < |s|
    ensures Lines(s[..j + 1]) == Lines(s[..j]) + {s[j]}
  {
    assert s[..j + 1] == s[..j] + [s[j]];
  }

  /** The inner loop of naiveUnique: the first index at which `line` is in
      `seen`, or seen.size() when it is not there. */
  method Scan(seen: seq<string>, line: string) returns (i: int)
    ensures 0 <= i <= |seen| && line !in seen[..i]
    ensures i < |seen| ==> seen[i] == line
    ensures i == |seen| <==> line !in seen
  {
    i := 0;
    while i < |seen| && line != seen[i]
      invariant 0 <= i <= |seen| && line !in seen[..i]
    {
      assert seen[..i + 1] == seen[..i] + [seen[i]];
      i := i + 1;
    }
    assert i == |seen| ==> seen[..i] == seen;
  }

  /** naiveUnique(sc): the number of distinct lines, found by keeping a list
      of the lines seen so far. */
  method NaiveUnique(lines: seq<string>) returns (count: int)
    ensures count == |Lines(lines)| && count <= |lines|
  {
    var seen: seq<string> := [];
    var j := 0;
    while j < |lines|
      invariant 0 <= j <= |lines| && seen == Dedup(lines[..j])
    {
      var line := lines[j];
      var i := Scan(seen, line);
      if i == |seen| {
        seen := seen + [line];
      }
      j := j + 1;
      assert lines[..j][..j - 1] == lines[..j - 1];
    }
    assert lines[..j] == lines;
    DedupFacts(lines);
    count := |seen|;
  }

  /** avlUnique(sc): every line is avlInserted into a new tree, and its size
      is the number of distinct lines.  ok is false when an avlInsert would
      throw a NullPointerException, which ends avlUnique. */
  method AvlUnique(lines: seq<string>) returns (count: int, ok: bool)
    ensures ok ==> count == |Lines(lines)|
  {
    var methods := new AVL();
    var j := 0;
    while j < |lines|
      invariant 0 <= j <= |lines|
      invariant methods.Valid() && Ordered(methods.shape, methods.word)
      invariant Keys(methods.shape, methods.word) == Lines(lines[..j])
      invariant methods.size == |Keys(methods.shape, methods.word)|
    {
      ok := methods.AvlInsert(lines[j]);
      if !ok {
        return 0, false;
      }
      LinesStep(lines, j);
      j := j + 1;
    }
    assert lines[..j] == lines;
    count := methods.GetSize();
    ok := true;
  }

  /** The two counters agree on every input on which avlUnique completes. */
  method CountsAgree(lines: seq<string>) returns (naive: int, avl: int, ok: bool)
    ensures naive == |Lines(lines)| && (ok ==> avl == naive)
  {
    naive := NaiveUnique(lines);
    avl, ok := AvlUnique(lines);
  }
}
