/**
  Canonical git tree order and the in-place sort the tree converter applies
  (`Collections.sort(entries)`).  Names compare by character code, with a
  directory's name compared as if it ended in '/'.
*/
module TreeOrder {
  import opened Objects
  import opened Lex

  /** What an entry is compared by: its name, followed by '/' for a directory. */
  function SortKey(mode: FileMode, name: string): (k: string)
    ensures |k| == |name| + (if mode == TreeMode then 1 else 0)
    ensures k[..|name|] == name
    ensures mode == TreeMode ==> k[|name|] == '/'
  {
    if mode == TreeMode then name + "/" else name
  }

  predicate EntryLe(a: GitTreeEntry, b: GitTreeEntry)
  {
    LexLe(SortKey(a.fileMode, a.fileName), SortKey(b.fileMode, b.fileName))
  }

  predicate SortedEntries(s: seq<GitTreeEntry>)
  {
    forall i, j :: 0 <= i < j < |s| ==> EntryLe(s[i], s[j])
  }

  lemma EntryLeTotal(a: GitTreeEntry, b: GitTreeEntry)
    ensures EntryLe(a, b) || EntryLe(b, a)
  {
    LexLeTotal(SortKey(a.fileMode, a.fileName), SortKey(b.fileMode, b.fileName));
  }

  lemma EntryLeTransitive(a: GitTreeEntry, b: GitTreeEntry, c: GitTreeEntry)
    requires EntryLe(a, b) && EntryLe(b, c)
    ensures EntryLe(a, c)
  {
    LexLeTransitive(SortKey(a.fileMode, a.fileName), SortKey(b.fileMode, b.fileName), SortKey(c.fileMode, c.fileName));
  }

  /** Exchange two neighbouring entries. */
  method SwapAdjacent(a: array<GitTreeEntry>, j: nat)
    requires 0 < j < a.Length
    modifies a
    ensures a[..] == old(a[..])[j - 1 := old(a[j])][j := old(a[j - 1])]
    ensures multiset(a[..]) == old(multiset(a[..]))
  {
    a[j - 1], a[j] := a[j], a[j - 1];
  }

  /** Move `a[i]` left until `a[..i + 1]` is sorted, given that `a[..i]` is. */
  method InsertAt(a: array<GitTreeEntry>, i: nat)
    requires i < a.Length
    requires forall k, l :: 0 <= k < l < i ==> EntryLe(a[k], a[l])
    modifies a
    ensures forall k, l :: 0 <= k < l <= i ==> EntryLe(a[k], a[l])
    ensures multiset(a[..]) == old(multiset(a[..]))
    ensures a[i + 1..] == old(a[i + 1..])
  {
    var j := i;
    while j > 0 && !EntryLe(a[j - 1], a[j])
      invariant 0 <= j <= i
      invariant forall k, l :: 0 <= k < l <= i && k != j && l != j ==> EntryLe(a[k], a[l])
      invariant forall l :: j < l <= i ==> EntryLe(a[j], a[l])
      invariant multiset(a[..]) == old(multiset(a[..]))
      invariant a[i + 1..] == old(a[i + 1..])
    {
      EntryLeTotal(a[j - 1], a[j]);
      SwapAdjacent(a, j);
      j := j - 1;
    }
    forall k | 0 <= k < j
      ensures EntryLe(a[k], a[j])
    {
      if k < j - 1 {
        EntryLeTransitive(a[k], a[j - 1], a[j]);
      }
    }
  }

  /** Insertion sort in place: the array ends sorted and holds the same entries. */
  method SortEntries(a: array<GitTreeEntry>)
    modifies a
    ensures SortedEntries(a[..])
    ensures multiset(a[..]) == old(multiset(a[..]))
  {
    var i := 0;
    while i < a.Length
      invariant 0 <= i <= a.Length
      invariant forall k, l :: 0 <= k < l < i ==> EntryLe(a[k], a[l])
      invariant multiset(a[..]) == old(multiset(a[..]))
    {
      InsertAt(a, i);
      i := i + 1;
    }
  }
}
