/** `DiskQuota::get_used`: the recursive directory-size accumulator. */
module Scanner {
  import opened FileTree
  import opened Paths

  /** What `scandir` gives the scan: the listing of a directory. On anything
      else `scandir` fails and returns false, which the loop iterates as
      no entries at all. */
  function ScanDir(n: Node): (listing: seq<Entry>)
    ensures WellFormed(n) ==> forall i :: 0 <= i < |listing| ==> EntryWellFormed(listing[i])
    ensures n.Dir? ==> listing == n.listing
    ensures !n.Dir? ==> listing == []
  {
    if n.Dir? then n.listing else []
  }

  /** The listing as a PHP array: keys 0 .. |listing|-1, each mapped to its
      entry. `unset` removes keys from it; `foreach` visits the remaining
      keys in ascending order. */
  function Keyed(listing: seq<Entry>): map<int, Entry> {
    map k | 0 <= k < |listing| :: listing[k]
  }

  /** Lines 59-63: the listing as a keyed array with `.` removed when it is
      the first entry and `..` removed when it is the second. */
  method DropLeadingDots(listing: seq<Entry>) returns (files: map<int, Entry>)
    requires forall i :: 0 <= i < |listing| ==> EntryWellFormed(listing[i])
    ensures forall j :: j in files ==> 0 <= j < |listing| && files[j] == listing[j]
    ensures forall j :: 0 <= j < |listing| && j !in files ==> listing[j].Dot?
    ensures (0 in files) == (|listing| > 0 && listing[0].name != ".")
    ensures (1 in files) == (|listing| > 1 && listing[1].name != "..")
    ensures forall j :: 2 <= j < |listing| ==> j in files
  {
    files := Keyed(listing);
    if 0 in files && files[0].name == "." {
      files := files - {0};
    }
    if 1 in files && files[1].name == ".." {
      files := files - {1};
    }
  }

  /** Scans the directory `root` found at `path` and returns the total size
      of every non-directory entry under it. */
  method GetUsed(path: string, root: Node) returns (totalSize: nat)
    requires WellFormed(root)
    ensures root.Dir? ==> totalSize == Used(root)
    ensures root.File? ==> totalSize == 0
    decreases root
  {
    totalSize := 0;
    var listing := ScanDir(root);
    var files := DropLeadingDots(listing);
    var k := 0;
    while k < |listing|
      invariant 0 <= k <= |listing|
      invariant totalSize == UsedEntries(listing[..k])
    {
      UsedEntriesStep(listing, k);
      assert EntryWellFormed(listing[k]);
      if k in files {
        var t := files[k];
        var dir := Join(path, t.name);
        if IsDir(t) {
          // A directory entry other than `.` and `..` is scanned recursively.
          if t.name != "." && t.name != ".." {
            var size := GetUsed(dir, t.node);
            totalSize := totalSize + size;
          }
        } else {
          totalSize := totalSize + t.node.size;
        }
      }
      k := k + 1;
    }
    assert listing[..k] == listing;
  }
}
