/** The directory tree that `DiskQuota::get_used` walks, as an immutable value.
    The live filesystem calls (`scandir`, `is_dir`, `filesize`) are replaced by
    this tree: a directory is the listing `scandir` returns for it, in the order
    it returns it, including the `.` and `..` pseudo-entries. */
module FileTree {

  /** A filesystem object: a non-directory entry with its `filesize`, or a
      directory with its listing. */
  datatype Node = File(size: nat) | Dir(listing: seq<Entry>)

  /** One name of a listing: one of the pseudo-entries `.` and `..` (both of
      which `is_dir` reports as directories), or a real child. */
  datatype Entry = Dot(name: string) | Child(name: string, node: Node)

  /** True of the names of the two pseudo-entries. */
  predicate IsDotName(name: string) {
    name == "." || name == ".."
  }

  /** The name of a real child: not a pseudo-entry, not empty, no separator. */
  predicate ValidName(name: string) {
    !IsDotName(name) && name != [] && '/' !in name
  }

  /** What `is_dir` answers for the path of an entry of a listing. */
  predicate IsDir(e: Entry) {
    e.Dot? || e.node.Dir?
  }

  /** A tree a real filesystem can present: pseudo-entries carry the names
      `.` and `..`, real children carry valid names, all the way down. */
  predicate WellFormed(n: Node)
    decreases n
  {
    match n
    case File(_) => true
    case Dir(listing) => forall i :: 0 <= i < |listing| ==> EntryWellFormed(listing[i])
  }

  predicate EntryWellFormed(e: Entry)
    decreases e
  {
    match e
    case Dot(name) => IsDotName(name)
    case Child(name, node) => ValidName(name) && WellFormed(node)
  }

  /** Used space: the sum of the sizes of all non-directory entries
      transitively under `n` (a non-directory counts its own size). */
  function Used(n: Node): nat
    decreases n
  {
    match n
    case File(size) => size
    case Dir(listing) => UsedEntries(listing)
  }

  /** The total of a listing, accumulated from the front as the scan does. */
  function UsedEntries(es: seq<Entry>): nat
    decreases es
  {
    if es == [] then 0 else UsedEntries(es[..|es| - 1]) + Counted(es[|es| - 1])
  }

  /** What one entry adds to its directory's total: nothing for `.` and `..`. */
  function Counted(e: Entry): nat
    decreases e
  {
    match e
    case Dot(_) => 0
    case Child(_, node) => Used(node)
  }

  /** The real children of a listing, in listing order: `.` and `..` dropped. */
  function Children(es: seq<Entry>): (r: seq<Entry>)
    ensures forall i :: 0 <= i < |r| ==> r[i].Child?
    ensures |r| <= |es|
  {
    if es == [] then []
    else if es[0].Dot? then Children(es[1..])
    else [es[0]] + Children(es[1..])
  }

  /** The sizes of the non-directory entries under `n`, in depth-first order:
      an enumeration of the files, independent of how the scan adds them up. */
  function Sizes(n: Node): seq<nat>
    decreases n
  {
    match n
    case File(size) => [size]
    case Dir(listing) => SizesEntries(listing)
  }

  function SizesEntries(es: seq<Entry>): seq<nat>
    decreases es
  {
    if es == [] then []
    else
      match es[0]
      case Dot(_) => SizesEntries(es[1..])
      case Child(_, node) => Sizes(node) + SizesEntries(es[1..])
  }

  function Sum(s: seq<nat>): nat {
    if s == [] then 0 else s[0] + Sum(s[1..])
  }

  lemma {:induction false} SumAppend(a: seq<nat>, b: seq<nat>)
    ensures Sum(a + b) == Sum(a) + Sum(b)
  {
    if a != [] {
      assert (a + b)[0] == a[0];
      assert (a + b)[1..] == a[1..] + b;
      SumAppend(a[1..], b);
    } else {
      assert a + b == b;
    }
  }

  lemma {:induction false} UsedEntriesAppend(a: seq<Entry>, b: seq<Entry>)
    ensures UsedEntries(a + b) == UsedEntries(a) + UsedEntries(b)
    decreases |b|
  {
    if b == [] {
      assert a + b == a;
    } else {
      assert (a + b)[..|a + b| - 1] == a + b[..|b| - 1];
      UsedEntriesAppend(a, b[..|b| - 1]);
    }
  }

  /** Extending a prefix of a listing by one entry adds that entry's share. */
  lemma UsedEntriesStep(es: seq<Entry>, k: nat)
    requires k < |es|
    ensures UsedEntries(es[..k + 1]) == UsedEntries(es[..k]) + Counted(es[k])
  {
    assert es[..k + 1][..k] == es[..k];
  }

  /** The total of a listing splits around any one of its entries. */
  lemma UsedEntriesAt(es: seq<Entry>, i: nat)
    requires i < |es|
    ensures UsedEntries(es) == UsedEntries(es[..i]) + Counted(es[i]) + UsedEntries(es[i + 1..])
  {
    assert es == es[..i + 1] + es[i + 1..];
    UsedEntriesAppend(es[..i + 1], es[i + 1..]);
    assert es[..i + 1][..i] == es[..i];
  }

  /** Used space does not depend on the order `scandir` lists a directory in. */
  lemma {:induction false} UsedEntriesPermutation(a: seq<Entry>, b: seq<Entry>)
    requires multiset(a) == multiset(b)
    ensures UsedEntries(a) == UsedEntries(b)
    decreases |a|
  {
    if a != [] {
      var n := |a| - 1;
      var x := a[n];
      assert x in multiset(b);
      var j :| 0 <= j < |b| && b[j] == x;
      var rest := b[..j] + b[j + 1..];
      assert multiset(a[..n]) == multiset(rest) by {
        assert a == a[..n] + [x];
        assert b == b[..j] + [x] + b[j + 1..];
        assert multiset(a) == multiset(a[..n]) + multiset{x};
        assert multiset(b) == multiset(b[..j]) + multiset{x} + multiset(b[j + 1..]);
        assert multiset(rest) == multiset(b[..j]) + multiset(b[j + 1..]);
        assert multiset(a[..n]) == multiset(a) - multiset{x};
      }
      UsedEntriesPermutation(a[..n], rest);
      UsedEntriesAt(b, j);
      UsedEntriesAppend(b[..j], b[j + 1..]);
    }
  }

  /** Rearranging a directory's listing leaves its used space unchanged. */
  lemma UsedOrderIndependent(listing: seq<Entry>, reordered: seq<Entry>)
    requires multiset(listing) == multiset(reordered)
    ensures Used(Dir(listing)) == Used(Dir(reordered))
  {
    UsedEntriesPermutation(listing, reordered);
  }

  /** `.` and `..` add nothing: a listing totals what its real children do. */
  lemma {:induction false} UsedIgnoresDots(es: seq<Entry>)
    ensures UsedEntries(es) == UsedEntries(Children(es))
    decreases |es|
  {
    if es != [] {
      UsedEntriesAppend([es[0]], es[1..]);
      assert es == [es[0]] + es[1..];
      assert UsedEntries([es[0]]) == Counted(es[0]) by {
        assert [es[0]][..0] == [];
      }
      UsedIgnoresDots(es[1..]);
      if es[0].Child? {
        UsedEntriesAppend([es[0]], Children(es[1..]));
      }
    }
  }

  /** A directory whose listing holds only `.` and `..` uses nothing. */
  lemma EmptyDirectoryUsesNothing(listing: seq<Entry>)
    requires forall i :: 0 <= i < |listing| ==> listing[i].Dot?
    ensures Used(Dir(listing)) == 0
  {
    UsedIgnoresDots(listing);
    if Children(listing) != [] {
      ChildrenAreFromListing(listing, 0);
    }
  }

  lemma {:induction false} ChildrenAreFromListing(es: seq<Entry>, k: nat)
    requires k < |Children(es)|
    ensures Children(es)[k] in es
    decreases |es|
  {
    if es[0].Dot? {
      ChildrenAreFromListing(es[1..], k);
    } else if k > 0 {
      ChildrenAreFromListing(es[1..], k - 1);
    }
  }

  /** A directory uses at least as much as any one of its subtrees. */
  lemma ChildUsedBounded(listing: seq<Entry>, i: nat)
    requires i < |listing| && listing[i].Child?
    ensures Used(listing[i].node) <= Used(Dir(listing))
  {
    UsedEntriesAt(listing, i);
  }

  /** Used space is the sum of the sizes of every file in the subtree. */
  lemma {:induction false} UsedIsSumOfSizes(n: Node)
    ensures Used(n) == Sum(Sizes(n))
    decreases n
  {
    match n
    case File(size) =>
      assert Sum([size]) == size + Sum([]);
    case Dir(listing) =>
      UsedEntriesIsSumOfSizes(listing);
  }

  lemma {:induction false} UsedEntriesIsSumOfSizes(es: seq<Entry>)
    ensures UsedEntries(es) == Sum(SizesEntries(es))
    decreases es
  {
    if es != [] {
      UsedEntriesAppend([es[0]], es[1..]);
      assert es == [es[0]] + es[1..];
      assert UsedEntries([es[0]]) == Counted(es[0]) by {
        assert [es[0]][..0] == [];
      }
      UsedEntriesIsSumOfSizes(es[1..]);
      match es[0]
      case Dot(_) =>
      case Child(_, node) =>
        UsedIsSumOfSizes(node);
        SumAppend(Sizes(node), SizesEntries(es[1..]));
    }
  }
}
