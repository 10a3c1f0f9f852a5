/**
 The trie built from scratch out of a sorted list of entries: the simple form
 that insertion and removal have to agree with.
 */
module TrieBuild {
  import opened Rlp
  import opened HexPrefix
  import opened Trie

  type Entry = (Nibbles, Bytes)

  ghost predicate Sorted(s: seq<Entry>) {
    forall i, j :: 0 <= i < j < |s| ==> Less(s[i].0, s[j].0)
  }

  /** Sorted entries with non-empty values whose keys agree on their first `pre` nibbles. */
  ghost predicate Entries(s: seq<Entry>, pre: nat) {
    && Sorted(s)
    && (forall i :: 0 <= i < |s| ==> s[i].1 != [] && |s[i].0| >= pre)
    && (forall i :: 0 <= i < |s| ==> s[i].0[..pre] == s[0].0[..pre])
  }

  /** Nibbles that the first and the last key share. */
  function Common(s: seq<Entry>): nat
    requires s != []
  {
    Shared(s[0].0, s[|s| - 1].0)
  }

  /** The entry comes before all those that continue with nibble `i` or more after `pre`. */
  predicate Before(e: Entry, pre: nat, i: nat) {
    |e.0| <= pre || e.0[pre] < i
  }

  /** Where the entries that continue with nibble `i` or more start. */
  function Cut(s: seq<Entry>, pre: nat, i: nat): (r: nat)
    ensures r <= |s|
    ensures forall j :: 0 <= j < r ==> Before(s[j], pre, i)
    ensures r < |s| ==> !Before(s[r], pre, i)
  {
    if s == [] || !Before(s[0], pre, i) then 0
    else
      var r := Cut(s[1..], pre, i);
      assert forall j :: 1 <= j < r + 1 ==> s[j] == s[1..][j - 1];
      r + 1
  }

  // ---- facts about sorted lists ----

  /** Between two keys that share `r` nibbles, every key shares them. */
  lemma {:induction false} SharedBetween(a: Nibbles, b: Nibbles, c: Nibbles)
    requires Less(a, b) && Less(b, c)
    ensures Shared(a, c) <= Shared(a, b)
  {
    if a != [] && c[0] == a[0] {
      SharedBetween(a[1..], b[1..], c[1..]);
    }
  }

  lemma {:induction false} CommonIsShared(s: seq<Entry>, i: nat)
    requires Sorted(s) && i < |s|
    ensures Shared(s[0].0, s[i].0) >= Common(s)
    ensures |s[i].0| >= Common(s) && s[i].0[..Common(s)] == s[0].0[..Common(s)]
  {
    var a, c := s[0].0, s[|s| - 1].0;
    if 0 < i < |s| - 1 {
      SharedBetween(a, s[i].0, c);
    }
    var r := Shared(a, s[i].0);
    if i == 0 { SharedIs(a, a, |a|); }
    assert a[..Common(s)] == a[..r][..Common(s)] == s[i].0[..r][..Common(s)] == s[i].0[..Common(s)];
  }

  lemma {:induction false} EntriesAtCommon(s: seq<Entry>, pre: nat)
    requires Entries(s, pre) && s != []
    ensures Common(s) >= pre && Entries(s, Common(s))
  {
    var a, c := s[0].0, s[|s| - 1].0;
    PrefixShared(a, c, pre);
    forall i | 0 <= i < |s|
      ensures |s[i].0| >= Common(s) && s[i].0[..Common(s)] == s[0].0[..Common(s)]
    {
      CommonIsShared(s, i);
    }
  }

  lemma {:induction false} PrefixShared(a: Nibbles, b: Nibbles, n: nat)
    requires n <= |a| && n <= |b| && a[..n] == b[..n]
    ensures Shared(a, b) >= n
  {
    var r := Shared(a, b);
    assert forall j :: 0 <= j < n ==> a[j] == a[..n][j] && b[j] == b[..n][j];
  }

  /** After a common prefix, sorted keys have sorted next nibbles; only the first may stop. */
  lemma {:induction false} NextNibbles(s: seq<Entry>, pre: nat, i: nat, j: nat)
    requires Entries(s, pre) && i < j < |s|
    ensures |s[j].0| > pre
    ensures |s[i].0| > pre ==> s[i].0[pre] <= s[j].0[pre]
    ensures Less(s[i].0[pre..], s[j].0[pre..])
  {
    var a, b := s[i].0, s[j].0;
    assert a == a[..pre] + a[pre..] && b == b[..pre] + b[pre..];
    assert a[..pre] == b[..pre];
    LessAppend(a[..pre], a[pre..], b[pre..]);
  }

  lemma {:induction false} CutIs(s: seq<Entry>, pre: nat, i: nat, j: nat)
    requires Entries(s, pre) && j < |s|
    ensures j < Cut(s, pre, i) <==> Before(s[j], pre, i)
  {
    var r := Cut(s, pre, i);
    if r < j {
      NextNibbles(s, pre, r, j);
    }
  }

  /** The entries that continue with nibble `i`. */
  function Run(s: seq<Entry>, pre: nat, i: nat): seq<Entry> {
    var lo, hi := Cut(s, pre, i), Cut(s, pre, i + 1);
    if lo <= hi then s[lo..hi] else []
  }

  lemma {:induction false} RunIs(s: seq<Entry>, pre: nat, i: nat)
    requires Entries(s, pre) && i < 16
    ensures Cut(s, pre, i) <= Cut(s, pre, i + 1)
    ensures Entries(Run(s, pre, i), pre + 1)
    ensures forall j :: Cut(s, pre, i) <= j < Cut(s, pre, i + 1) ==> |s[j].0| > pre && s[j].0[pre] == i
  {
    CutsAscend(s, pre, i);
    hide Cut, Entries, Less, Before;
    var lo, hi := Cut(s, pre, i), Cut(s, pre, i + 1);
    forall j | lo <= j < hi
      ensures |s[j].0| > pre && s[j].0[pre] == i && s[j].0[..pre + 1] == s[0].0[..pre] + [i]
    {
      RunEntry(s, pre, i, j);
    }
    SliceEntries(s, lo, hi, pre, i);
  }

  lemma {:induction false} CutsAscend(s: seq<Entry>, pre: nat, i: nat)
    requires Entries(s, pre)
    ensures Cut(s, pre, i) <= Cut(s, pre, i + 1)
  {
    hide Entries, Cut;
    var lo, hi := Cut(s, pre, i), Cut(s, pre, i + 1);
    if hi < lo {
      CutIs(s, pre, i, hi);
      CutIs(s, pre, i + 1, hi);
    }
  }

  lemma {:induction false} SliceEntries(s: seq<Entry>, lo: nat, hi: nat, pre: nat, i: Nibble)
    requires Entries(s, pre) && lo <= hi <= |s|
    requires forall j :: lo <= j < hi ==> |s[j].0| > pre && s[j].0[..pre + 1] == s[0].0[..pre] + [i]
    ensures Entries(s[lo..hi], pre + 1)
  {
    SliceIsSorted(s, lo, hi);
    hide Sorted;
    var run := s[lo..hi];
    forall j | 0 <= j < |run|
      ensures run[j].1 != [] && |run[j].0| >= pre + 1 && run[j].0[..pre + 1] == s[0].0[..pre] + [i]
    {
      assert run[j] == s[lo + j];
    }
  }

  lemma SliceIsSorted(s: seq<Entry>, lo: nat, hi: nat)
    requires Sorted(s) && lo <= hi <= |s|
    ensures Sorted(s[lo..hi])
  {
  }

  lemma {:induction false} RunEntry(s: seq<Entry>, pre: nat, i: nat, j: nat)
    requires Entries(s, pre) && i < 16 && j < |s| && Cut(s, pre, i) <= j < Cut(s, pre, i + 1)
    ensures |s[j].0| > pre && s[j].0[pre] == i && s[j].0[..pre + 1] == s[0].0[..pre] + [i]
  {
    CutIs(s, pre, i, j);
    CutIs(s, pre, i + 1, j);
    assert s[j].0[..pre + 1] == s[j].0[..pre] + [s[j].0[pre]];
  }

  /** Every entry that goes on past `pre` is in the run of its next nibble. */
  lemma {:induction false} RunHas(s: seq<Entry>, pre: nat, j: nat) returns (i: nat, r: nat)
    requires Entries(s, pre) && j < |s| && |s[j].0| > pre
    ensures i < 16 && i == s[j].0[pre]
    ensures r < |Run(s, pre, i)| && Run(s, pre, i)[r] == s[j]
  {
    i := s[j].0[pre];
    CutIs(s, pre, i, j);
    CutIs(s, pre, i + 1, j);
    r := j - Cut(s, pre, i);
  }

  lemma {:induction false} RunFrom(s: seq<Entry>, pre: nat, i: nat, r: nat) returns (j: nat)
    requires Entries(s, pre) && i < 16 && r < |Run(s, pre, i)|
    ensures j < |s| && Run(s, pre, i)[r] == s[j] && |s[j].0| > pre && s[j].0[pre] == i
  {
    RunIs(s, pre, i);
    j := r + Cut(s, pre, i);
  }

  /** At least two entries, which do not all continue alike after `pre`. */
  ghost predicate Splits(s: seq<Entry>, pre: nat) {
    Entries(s, pre) && |s| >= 2 && Common(s) == pre
  }

  lemma {:induction false} RunIsShorter(s: seq<Entry>, pre: nat, i: nat)
    requires Splits(s, pre) && i < 16
    ensures |Run(s, pre, i)| < |s|
  {
    RunIs(s, pre, i);
    var last := |s| - 1;
    NextNibbles(s, pre, 0, last);
    assert |s[0].0| == pre || s[0].0[pre] != s[last].0[pre];
    CutIs(s, pre, i, 0);
    CutIs(s, pre, i + 1, last);
  }

  // ---- construction ----

  ghost function Build(s: seq<Entry>, pre: nat): Node
    requires Entries(s, pre)
    decreases |s|, 1
  {
    if s == [] then Null
    else if |s| == 1 then Leaf(s[0].0[pre..], s[0].1)
    else
      var c := Common(s);
      EntriesAtCommon(s, pre);
      if c > pre then Ext(s[0].0[pre..c], BuildBranch(s, c)) else BuildBranch(s, pre)
  }

  ghost function BuildBranch(s: seq<Entry>, pre: nat): Node
    requires Splits(s, pre)
    decreases |s|, 0
  {
    Branch(seq(16, i requires 0 <= i < 16 => BuildKid(s, pre, i)), if |s[0].0| == pre then s[0].1 else [])
  }

  ghost function BuildKid(s: seq<Entry>, pre: nat, i: nat): Node
    requires Splits(s, pre) && i < 16
    decreases |s|, 0, 0
  {
    RunIs(s, pre, i);
    RunIsShorter(s, pre, i);
    Build(Run(s, pre, i), pre + 1)
  }

  lemma {:induction false} KidIs(s: seq<Entry>, pre: nat, i: nat)
    requires Splits(s, pre) && i < 16
    ensures Entries(Run(s, pre, i), pre + 1) && |Run(s, pre, i)| < |s|
    ensures BuildBranch(s, pre).kids[i] == Build(Run(s, pre, i), pre + 1)
  {
    RunIs(s, pre, i);
    RunIsShorter(s, pre, i);
    assert BuildBranch(s, pre).kids[i] == BuildKid(s, pre, i);
  }

  // ---- what is built ----

  ghost predicate Lists(s: seq<Entry>, pre: nat, k: Nibbles)
    requires Entries(s, pre)
  {
    exists i :: 0 <= i < |s| && s[i].0[pre..] == k
  }

  /** The lookups of `n` are the entries, less `pre` nibbles of their keys. */
  ghost predicate Represents(n: Node, s: seq<Entry>, pre: nat)
    requires WellFormed(n) && Entries(s, pre)
  {
    && (forall i :: 0 <= i < |s| ==> At(n, s[i].0[pre..]) == s[i].1)
    && (forall k :: At(n, k) != [] ==> Lists(s, pre, k))
  }

  /** Before the first run stands at most the entry that stops after `pre` nibbles. */
  lemma {:induction false} FirstCut(s: seq<Entry>, pre: nat)
    requires Splits(s, pre)
    ensures Cut(s, pre, 0) == if |s[0].0| == pre then 1 else 0
  {
    NextNibbles(s, pre, 0, 1);
    CutIs(s, pre, 0, 0);
    CutIs(s, pre, 0, 1);
  }

  lemma {:induction false} BuildIsNormal(s: seq<Entry>, pre: nat)
    requires Entries(s, pre)
    ensures Normal(Build(s, pre))
    decreases |s|, 1
  {
    if |s| >= 2 {
      EntriesAtCommon(s, pre);
      BuildBranchIsNormal(s, Common(s));
    }
  }

  lemma {:induction false} BuildBranchIsNormal(s: seq<Entry>, pre: nat)
    requires Splits(s, pre)
    ensures BuildBranch(s, pre).Branch? && Normal(BuildBranch(s, pre))
    decreases |s|, 0
  {
    var n := BuildBranch(s, pre);
    forall i | 0 <= i < 16
      ensures Normal(n.kids[i])
    {
      KidIs(s, pre, i);
      BuildIsNormal(Run(s, pre, i), pre + 1);
    }
    var last := |s| - 1;
    NextNibbles(s, pre, 0, last);
    EntryUsesSlot(s, pre, last);
    EntryUsesSlot(s, pre, 0);
    if |s[0].0| == pre {
      assert Used(n, s[last].0[pre]) && Used(n, 16);
    } else {
      assert s[0].0[pre] != s[last].0[pre];
      assert Used(n, s[0].0[pre]) && Used(n, s[last].0[pre]);
    }
  }

  lemma {:induction false} EntryUsesSlot(s: seq<Entry>, pre: nat, j: nat)
    requires Splits(s, pre) && j < |s|
    ensures var n := BuildBranch(s, pre);
      if |s[j].0| == pre then n.value == s[j].1 else n.kids[s[j].0[pre]] != Null
  {
    if |s[j].0| == pre {
      if j > 0 { NextNibbles(s, pre, 0, j); }
    } else {
      var i, r := RunHas(s, pre, j);
      KidIs(s, pre, i);
    }
  }

  lemma {:induction false} BuildRepresents(s: seq<Entry>, pre: nat)
    requires Entries(s, pre)
    ensures Normal(Build(s, pre)) && Represents(Build(s, pre), s, pre)
    decreases |s|, 1
  {
    hide Less, Shared;
    BuildIsNormal(s, pre);
    if |s| == 1 {
      assert Lists(s, pre, s[0].0[pre..]);
    } else if |s| >= 2 {
      EntriesAtCommon(s, pre);
      var c := Common(s);
      BuildBranchRepresents(s, c);
      if c > pre {
        ExtRepresents(BuildBranch(s, c), s, pre, c);
      }
    }
  }

  lemma {:induction false} ExtRepresents(n: Node, s: seq<Entry>, pre: nat, c: nat)
    requires Entries(s, pre) && Entries(s, c) && s != [] && pre < c && n != Null && WellFormed(n)
    requires Represents(n, s, c)
    ensures Represents(Ext(s[0].0[pre..c], n), s, pre)
  {
    var e := Ext(s[0].0[pre..c], n);
    forall i | 0 <= i < |s|
      ensures At(e, s[i].0[pre..]) == s[i].1
    {
      ExtEntry(n, s[0].0, s[i].0, pre, c);
    }
    forall k | At(e, k) != []
      ensures Lists(s, pre, k)
    {
      var rest := k[c - pre..];
      assert Lists(s, c, rest);
      var i :| 0 <= i < |s| && s[i].0[c..] == rest;
      ExtKey(s[0].0, s[i].0, k, pre, c);
    }
  }

  lemma {:induction false} ExtEntry(n: Node, first: Nibbles, k: Nibbles, pre: nat, c: nat)
    requires n != Null && WellFormed(n) && pre < c <= |first| && c <= |k| && k[..c] == first[..c]
    ensures At(Ext(first[pre..c], n), k[pre..]) == At(n, k[c..])
  {
    var p := first[pre..c];
    assert k[pre..][..|p|] == k[..c][pre..] == first[..c][pre..] == p;
    assert k[pre..][|p|..] == k[c..];
  }

  lemma {:induction false} ExtKey(first: Nibbles, l: Nibbles, k: Nibbles, pre: nat, c: nat)
    requires pre < c <= |first| && c <= |l| && l[..c] == first[..c]
    requires IsPrefix(first[pre..c], k) && l[c..] == k[c - pre..]
    ensures l[pre..] == k
  {
    assert l[pre..] == l[..c][pre..] + l[c..];
    assert first[..c][pre..] == first[pre..c];
    assert k == first[pre..c] + k[c - pre..];
  }

  lemma {:induction false} BuildBranchRepresents(s: seq<Entry>, pre: nat)
    requires Splits(s, pre)
    ensures Normal(BuildBranch(s, pre)) && Represents(BuildBranch(s, pre), s, pre)
    decreases |s|, 0
  {
    BuildBranchIsNormal(s, pre);
    var n := BuildBranch(s, pre);
    forall i | 0 <= i < 16
      ensures Entries(Run(s, pre, i), pre + 1) && Represents(n.kids[i], Run(s, pre, i), pre + 1)
    {
      KidIs(s, pre, i);
      BuildRepresents(Run(s, pre, i), pre + 1);
    }
    forall j | 0 <= j < |s|
      ensures At(n, s[j].0[pre..]) == s[j].1
    {
      EntryInBranch(n, s, pre, j);
    }
    forall k | At(n, k) != []
      ensures Lists(s, pre, k)
    {
      KeyInBranch(n, s, pre, k);
    }
  }

  lemma {:induction false} EntryInBranch(n: Node, s: seq<Entry>, pre: nat, j: nat)
    requires Splits(s, pre) && j < |s| && n == BuildBranch(s, pre) && Normal(n)
    requires forall i :: 0 <= i < 16 ==> Entries(Run(s, pre, i), pre + 1) && Represents(n.kids[i], Run(s, pre, i), pre + 1)
    ensures At(n, s[j].0[pre..]) == s[j].1
  {
    var k := s[j].0;
    if |k| == pre {
      EntryUsesSlot(s, pre, j);
    } else {
      var i, r := RunHas(s, pre, j);
      EntryInKid(n, i, Run(s, pre, i), r, pre);
    }
  }

  lemma {:induction false} EntryInKid(n: Node, i: nat, run: seq<Entry>, r: nat, pre: nat)
    requires n.Branch? && WellFormed(n) && i < 16 && Entries(run, pre + 1) && r < |run|
    requires Represents(n.kids[i], run, pre + 1) && run[r].0[pre] == i
    ensures At(n, run[r].0[pre..]) == run[r].1
  {
    var k := run[r].0[pre..];
    assert k[1..] == run[r].0[pre + 1..];
    assert k[0] == i;
  }

  lemma {:induction false} KeyInBranch(n: Node, s: seq<Entry>, pre: nat, k: Nibbles)
    requires Splits(s, pre) && n == BuildBranch(s, pre) && Normal(n) && At(n, k) != []
    requires forall i :: 0 <= i < 16 ==> Entries(Run(s, pre, i), pre + 1) && Represents(n.kids[i], Run(s, pre, i), pre + 1)
    ensures Lists(s, pre, k)
  {
    if k == [] {
      assert s[0].0[pre..] == [];
    } else {
      var r := KeyInKid(n, k, Run(s, pre, k[0]), pre);
      KeyOfRun(s, pre, k, r);
    }
  }

  lemma {:induction false} KeyOfRun(s: seq<Entry>, pre: nat, k: Nibbles, r: nat)
    requires Entries(s, pre) && k != [] && r < |Run(s, pre, k[0])|
    requires |Run(s, pre, k[0])[r].0| > pre && Run(s, pre, k[0])[r].0[pre + 1..] == k[1..]
    ensures Lists(s, pre, k)
  {
    var j := RunFrom(s, pre, k[0], r);
    var l := s[j].0;
    assert l[pre..] == [l[pre]] + l[pre + 1..] == k;
  }

  lemma {:induction false} KeyInKid(n: Node, k: Nibbles, run: seq<Entry>, pre: nat) returns (r: nat)
    requires n.Branch? && WellFormed(n) && k != [] && Entries(run, pre + 1)
    requires Represents(n.kids[k[0]], run, pre + 1) && At(n, k) != []
    ensures r < |run| && |run[r].0| > pre && run[r].0[pre + 1..] == k[1..]
  {
    assert Lists(run, pre + 1, k[1..]);
    r :| 0 <= r < |run| && run[r].0[pre + 1..] == k[1..];
  }
}
