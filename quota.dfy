/** `DiskQuota::get_free_space` and `DiskQuota::get_quota`: used space set
    against a limit in megabytes, where a limit of 0 means unlimited. */
module Quota {
  import opened FileTree
  import opened Scanner
  import opened Rounding
  import opened Format

  /** Bytes in one megabyte of the limit. */
  const MiB: nat := 1024 * 1024

  /** The quota in bytes: `1024 * 1024 * $disk_limit`, a whole number of
      megabytes from which the limit is recovered, of the limit's sign. */
  function TotalBytes(diskLimit: int): (t: int)
    ensures t % MiB == 0 && t / MiB == diskLimit
    ensures t > 0 <==> diskLimit > 0
  {
    MiB * diskLimit
  }

  /** What `get_used` reports for the object at a path: the used space of a
      directory, 0 for anything `scandir` cannot list. */
  function Reported(root: Node): nat {
    if root.Dir? then Used(root) else 0
  }

  /** `round($used / $total, 2) * 100`. Rounding the fraction to two decimals
      and then scaling by 100 gives exactly the integer nearest to
      `100 * used / total`, a half rounded away from zero. */
  function Percentage(used: nat, total: int): (p: int)
    requires total != 0
    ensures 0 < Abs(total) + 2 * (Abs(p) * Abs(total) - 100 * used) <= 2 * Abs(total)
    ensures p == 0 || (p < 0 <==> total < 0)
  {
    RoundHalfAway(100 * used, total)
  }

  /** Using exactly the quota reads as 100 percent. */
  lemma PercentageAtQuota(total: int)
    requires total > 0
    ensures Percentage(total, total) == 100
  {
    RoundHalfAwayUnique(100 * total, total, 100);
  }

  /** More usage never reads as a lower percentage. */
  lemma PercentageMonotone(used1: nat, used2: nat, total: int)
    requires used1 <= used2 && total > 0
    ensures Percentage(used1, total) <= Percentage(used2, total)
  {
    RoundHalfAwayMonotone(100 * used1, 100 * used2, total);
  }

  /** Usage over the quota reads as at least 100 percent, usage within it as
      at most 100 percent. */
  lemma PercentageAgainstQuota(used: nat, total: int)
    requires total > 0
    ensures used >= total ==> Percentage(used, total) >= 100
    ensures used <= total ==> Percentage(used, total) <= 100
  {
    PercentageAtQuota(total);
    if used >= total {
      PercentageMonotone(total, used, total);
    } else {
      PercentageMonotone(used, total, total);
    }
  }

  /** Over quota is not always over 100 percent: one byte over a one
      megabyte quota still reads as exactly 100. */
  lemma PercentageOverQuotaCanRead100()
    ensures MiB + 1 > TotalBytes(1) && Percentage(MiB + 1, TotalBytes(1)) == 100
  {
    RoundHalfAwayUnique(100 * (MiB + 1), MiB, 100);
  }

  /** A field of the report: the "UNLIMITED" sentinel, or a byte count as
      `format_bytes` renders it. */
  datatype Field = Unlimited | Bytes(formatted: Formatted)

  /** The array `get_quota` returns. */
  datatype QuotaReport = QuotaReport(
    directory: string,
    freeSpace: Field,
    usedSpace: Field,
    total: Field,
    percentage: int)

  /** `get_free_space($path, $disk_limit)`: the quota in bytes minus the used
      space; negative exactly when usage exceeds the quota. */
  method GetFreeSpace(path: string, root: Node, diskLimit: int) returns (totalFree: int)
    requires WellFormed(root)
    ensures totalFree + Reported(root) == TotalBytes(diskLimit)
    ensures totalFree < 0 <==> Reported(root) > TotalBytes(diskLimit)
  {
    var total := GetUsed(path, root);
    totalFree := MiB * diskLimit - total;
  }

  /** `get_quota($path, $disk_limit = 500)`: the report on the directory at
      `path`, each byte count formatted at the default precision of 2. */
  method GetQuota(path: string, root: Node, diskLimit: int := 500) returns (data: QuotaReport)
    requires WellFormed(root)
    ensures data.directory == path
    ensures data.usedSpace == Bytes(FormatBytes(Reported(root)))
    ensures diskLimit == 0 ==>
      data.freeSpace == Unlimited && data.total == Unlimited && data.percentage == 0
    ensures diskLimit != 0 ==>
      data.freeSpace == Bytes(FormatBytes(TotalBytes(diskLimit) - Reported(root))) &&
      data.total == Bytes(FormatBytes(TotalBytes(diskLimit))) &&
      data.percentage == Percentage(Reported(root), TotalBytes(diskLimit))
  {
    var total := MiB * diskLimit;
    var used := GetUsed(path, root);
    var free := GetFreeSpace(path, root, diskLimit);
    data := QuotaReport(
      path,
      if diskLimit == 0 then Unlimited else Bytes(FormatBytes(free)),
      Bytes(FormatBytes(used)),
      if diskLimit == 0 then Unlimited else Bytes(FormatBytes(total)),
      if diskLimit == 0 then 0 else Percentage(used, total));
  }

  /** An empty directory reports its used space as "NAN": it uses 0 bytes,
      and `format_bytes(0)` has no logarithm to work with. */
  lemma EmptyDirectoryReadsNaN(listing: seq<Entry>)
    requires forall i :: 0 <= i < |listing| ==> listing[i].Dot?
    ensures FormatBytes(Reported(Dir(listing))) == NotANumber
  {
    EmptyDirectoryUsesNothing(listing);
  }

  /** The directory of the report example: a 1,000,000-byte file and a
      subdirectory holding a 2,500,000-byte file. */
  function ScenarioTree(): Node {
    Dir([Dot("."), Dot(".."), Child("file1.txt", File(1000000)),
      Child("sub", Dir([Dot("."), Dot(".."), Child("file2.txt", File(2500000))]))])
  }

  /** A file beside a subdirectory holding a file uses the sum of both. */
  lemma ScenarioUsed()
    ensures Used(ScenarioTree()) == 3500000
  {
    var file2 := Child("file2.txt", File(2500000));
    var sub := Child("sub", Dir([Dot("."), Dot(".."), file2]));
    var file1 := Child("file1.txt", File(1000000));
    UsedIsSumOfSizes(ScenarioTree());
    assert [Dot("."), Dot(".."), file2][1..] == [Dot(".."), file2];
    assert [Dot(".."), file2][1..] == [file2];
    assert SizesEntries([file2]) == [2500000] by {
      assert [file2][1..] == [];
    }
    assert SizesEntries([Dot(".."), file2]) == [2500000];
    assert SizesEntries([Dot("."), Dot(".."), file2]) == [2500000];
    assert Sizes(sub.node) == [2500000];
    assert SizesEntries([sub]) == [2500000] by {
      assert [sub][1..] == [];
    }
    assert [file1, sub][1..] == [sub];
    assert [Dot(".."), file1, sub][1..] == [file1, sub];
    assert [Dot("."), Dot(".."), file1, sub][1..] == [Dot(".."), file1, sub];
    assert SizesEntries([file1, sub]) == [1000000] + [2500000];
    assert SizesEntries([Dot(".."), file1, sub]) == [1000000, 2500000];
    assert SizesEntries([Dot("."), Dot(".."), file1, sub]) == [1000000, 2500000];
    assert Sum([1000000, 2500000]) == 3500000 by {
      assert [1000000, 2500000][1..] == [2500000];
      assert [2500000][1..] == [];
    }
  }

  /** A count of at least 1 MB and below 1024 MB is formatted in "MB", with
      the mantissa `bytes / 1024^2` rounded to two digits. */
  lemma FormatBytesInMegabytes(bytes: int, scaled: int)
    requires MiB <= bytes < 1024 * MiB
    requires 0 < MiB + 2 * (scaled * MiB - bytes * 100) <= 2 * MiB
    ensures FormatBytes(bytes) == Number(scaled, 2, "MB")
  {
    assert Pow(10, 2) == 100;
    assert Pow(1024, 2) == MiB;
    assert Pow(1024, 3) == 1024 * MiB;
    MagnitudeUnique(bytes, 2);
    RoundHalfAwayUnique(bytes * 100, MiB, scaled);
  }

  /** The report example against a 5 MB quota: 3.34MB used, 1.66MB free, a
      5MB total and 67 percent. */
  lemma ScenarioReport()
    ensures var used := Used(ScenarioTree());
      FormatBytes(used) == Number(334, 2, "MB") &&
      FormatBytes(TotalBytes(5) - used) == Number(166, 2, "MB") &&
      FormatBytes(TotalBytes(5)) == Number(500, 2, "MB") &&
      Percentage(used, TotalBytes(5)) == 67
  {
    ScenarioUsed();
    FormatBytesInMegabytes(3500000, 334);
    FormatBytesInMegabytes(1742880, 166);
    FormatBytesInMegabytes(5242880, 500);
    RoundHalfAwayUnique(100 * 3500000, 5242880, 67);
  }
}
