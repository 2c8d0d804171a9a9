# DiskQuota, modelled in Dafny

DiskQuota is a single PHP class that reports disk usage for a directory tree.
`get_used` walks a directory recursively and adds up the size of every
non-directory entry. `get_free_space` subtracts that from a limit given in
megabytes. `get_quota` builds a report: the directory, free space, used space
and total (each passed through `format_bytes`), and a percentage. A limit of 0
means unlimited. `format_bytes` picks a power of 1024 and one of the suffixes
`''`, `kb`, `MB`, `GB`, `TB`.

The model replaces the live filesystem with an immutable tree value. A
directory is the listing `scandir` returns for it, in the order returned. The
`.` and `..` pseudo-entries are part of the listing and can sit at any
position. Floating-point `log`, `pow` and `round` are replaced by their exact
integer meaning.

Modules, one per concern of `DiskQuota.class.php`:

- `FileTree` (tree.dfy): the tree, and `Used`, the specification of used space,
  with its properties: order independence, `.`/`..` ignored, sum of all file
  sizes, bounds.
- `Scanner` (scanner.dfy): `GetUsed`, the imperative scan. It keeps the
  listing as a PHP-style keyed array. `DropLeadingDots` `unset`s the leading
  pseudo-entries. `GetUsed` then accumulates `totalSize` in a loop, with
  recursion into subdirectories. It is proved equal to `Used`.
- `Paths` (paths.dfy): `rtrim($path, '/') . '/' . $t`.
- `Rounding` (rounding.dfy): PHP's `round` (half away from zero) on an exact
  quotient.
- `Format` (format.dfy): `format_bytes` as magnitude, suffix and a rounded
  mantissa held exactly as `scaled / 10^precision`.
- `Quota` (quota.dfy): `get_free_space`, `get_quota`, the percentage.

Behaviour of the code worth knowing:

- A path that cannot be listed does not raise an error. `scandir` returns
  false, the loop runs over nothing, and `get_used` returns 0. `GetUsed`
  returns 0 for a non-directory.
- `format_bytes` has no zero case and no clamp on the magnitude. For 0 or a
  negative count the logarithm is `-INF` or `NAN`, and PHP returns the string
  "NAN": an empty directory reports its used space as "NAN", and so does free
  space at or over the quota. From 1024^5 bytes up the suffix key is past the
  table, and the rounded mantissa is returned with no suffix. `FormatBytes`
  gives `NotANumber` and an empty suffix in these cases.
- Being over quota does not always give a percentage above 100. The fraction
  is rounded to two decimals first, so one byte over a 1 MB quota reads as
  exactly 100. The model proves "at least 100" and exhibits that case. The
  percentage is also not capped at 100.
- The limit is not validated. A negative limit gives a negative total.

## Model

| member | source | states |
|---|---|---|
| `FileTree.Used` | DiskQuota.class.php:51-95 | The reference definition of used space: a file counts its size, a directory the total of its listing, `.` and `..` nothing. It carries no contract of its own; the lemmas below characterise it. |
| `Scanner.ScanDir` | DiskQuota.class.php:57 | `scandir` on a directory gives exactly that directory's listing, whose entries are well formed when the tree is. On anything else it fails, and the loop at line 66 sees no entries. |
| `Scanner.GetUsed` | DiskQuota.class.php:51-95 | For a well-formed directory, the accumulated total equals `Used(root)`: every file size under it, `.` and `..` skipped whether or not they were unset. For a non-directory (failed `scandir`) the result is 0. |
| `Scanner.DropLeadingDots` | DiskQuota.class.php:59-63 | Key 0 is removed exactly when the first entry is named `.`, key 1 exactly when the second is named `..`. All other keys stay, with their entries. Every removed key held a pseudo-entry. |
| `FileTree.UsedIsSumOfSizes` | DiskQuota.class.php:51-95 | Used space equals the sum of the sizes of every non-directory entry in the subtree, listed depth-first. |
| `FileTree.UsedOrderIndependent` | DiskQuota.class.php:57-66 | Any reordering of a directory's listing (same multiset of entries) gives the same used space. |
| `FileTree.UsedEntriesPermutation` | DiskQuota.class.php:66-92 | The running total over a listing depends only on the multiset of its entries. |
| `FileTree.UsedEntriesAppend` | DiskQuota.class.php:66-92 | The total of two listings placed one after the other is the sum of their totals. |
| `FileTree.UsedEntriesAt` | DiskQuota.class.php:81-90 | A listing's total is the total before an entry, plus that entry's contribution, plus the total after it. |
| `FileTree.UsedIgnoresDots` | DiskQuota.class.php:59-76 | A listing totals exactly what its real children total: `.` and `..` add nothing. |
| `FileTree.EmptyDirectoryUsesNothing` | DiskQuota.class.php:54-63 | A directory whose listing holds only pseudo-entries uses 0 bytes. |
| `FileTree.ChildUsedBounded` | DiskQuota.class.php:78-81 | A directory's used space is at least that of each of its subdirectories and files. |
| `Paths.TrimTrailingSlashes` | DiskQuota.class.php:69 | `rtrim($path, '/')` returns a prefix of the path that does not end in '/', and only '/' characters were removed. |
| `Paths.Join` | DiskQuota.class.php:69 | The child path ends in exactly one '/' followed by the name. What precedes it is the parent path with its trailing slashes removed. |
| `Paths.TrimIgnoresTrailingSlashes` | DiskQuota.class.php:78 | Appending any run of '/' to a path does not change what `rtrim` gives. |
| `Paths.JoinIgnoresTrailingSlashes` | DiskQuota.class.php:78 | A parent written with extra trailing slashes yields the same child path. |
| `Paths.JoinRoot` | DiskQuota.class.php:87 | `/` joined with `x` is `/x`. |
| `Paths.JoinNoDoubleSlash` | DiskQuota.class.php:69 | A parent without "//" and a name without '/' give a child path without "//". |
| `Rounding.RoundHalfAway` | DiskQuota.class.php:39 | The result is the integer nearest `n / d`. Its magnitude is `abs(n) / abs(d)` rounded half up, and its sign is that of the quotient, so halves round away from zero. |
| `Rounding.RoundHalfAwayUnique` | DiskQuota.class.php:39 | No other integer meets that contract. |
| `Rounding.RoundHalfAwayMonotone` | DiskQuota.class.php:39 | For a positive divisor, a larger non-negative dividend never rounds lower. |
| `Format.Magnitude` | DiskQuota.class.php:127 | `floor(log(size)/log(1024))` as the `k` with `1024^k <= size < 1024^(k+1)`. |
| `Format.MagnitudeUnique` | DiskQuota.class.php:127 | Any `j` bracketing the size that way is the magnitude: it is the largest `k` with `1024^k <= size`. |
| `Format.FormatBytes` | DiskQuota.class.php:125-133 | The result is "NAN" exactly when the size is below 1. Otherwise the suffix is the table entry at the magnitude, or empty past "TB", the precision defaults to 2, and the mantissa `scaled / 10^precision` is `size / 1024^k` rounded to `precision` digits. |
| `Format.FormatBytesMantissaBounds` | DiskQuota.class.php:130 | The exact mantissa lies in [1, 1024). The rounded one lies in [1, 1024]. |
| `Format.FormatBytesPastTable` | DiskQuota.class.php:128-130 | Every size of at least 1024^5 bytes is shown with an empty suffix. |
| `Format.FormatBytesPetabyte` | DiskQuota.class.php:127-130 | 1024^5 bytes is shown as mantissa 1.00 with no suffix. |
| `Format.FormatBytesShows1024` | DiskQuota.class.php:130 | 1048575 bytes renders as mantissa 1024.00 with suffix `kb`, so rounding can reach the upper bound. |
| `Format.FormatBytesExamples` | DiskQuota.class.php:125-133 | 1536 bytes gives 1.50 `kb`. 1048576 bytes gives 1.00 `MB`. |
| `Quota.Percentage` | DiskQuota.class.php:39 | `round(used/total, 2) * 100` is the integer nearest `100 * used / total`, halves away from zero. It is zero or has the sign of the total: negative exactly when the total is. |
| `Quota.PercentageAtQuota` | DiskQuota.class.php:39 | Usage equal to the quota gives 100. |
| `Quota.PercentageMonotone` | DiskQuota.class.php:39 | For a positive total, more usage never gives a lower percentage. |
| `Quota.PercentageAgainstQuota` | DiskQuota.class.php:30-39 | Usage at or over the quota gives at least 100. Usage at or under it gives at most 100. |
| `Quota.PercentageOverQuotaCanRead100` | DiskQuota.class.php:39 | One byte over a 1 MB quota still gives exactly 100, not more. |
| `Quota.TotalBytes` | DiskQuota.class.php:30 | The quota in bytes is a whole number of megabytes from which the limit is recovered, and it is positive exactly when the limit is. |
| `Quota.GetFreeSpace` | DiskQuota.class.php:105-114 | Free space plus what `get_used` reports equals `1024*1024*limit`. It is negative exactly when usage exceeds the quota. |
| `Quota.GetQuota` | DiskQuota.class.php:28-42 | The limit defaults to 500 MB. `directory` is the input path. With limit 0, free space and total are `UNLIMITED` and the percentage is 0, whatever the usage. Otherwise free space, total and percentage are the formatted `total - used`, the formatted total and `Percentage(used, total)`. Used space is always the formatted usage. Every byte count is formatted at the default precision of 2. |
| `Quota.EmptyDirectoryReadsNaN` | DiskQuota.class.php:37 | A directory holding only `.` and `..` reports its used space as "NAN". |
| `Quota.ScenarioUsed` | DiskQuota.class.php:66-92 | A 1,000,000-byte file beside a subdirectory holding a 2,500,000-byte file uses 3,500,000 bytes. |
| `Quota.ScenarioReport` | DiskQuota.class.php:28-42 | A 1,000,000-byte file plus a 2,500,000-byte file in a subdirectory, with a 5 MB limit, gives 3.34 MB used, 1.66 MB free, 5.00 MB total and 67 percent. |

## Left out

- Filesystem calls (`scandir`, `is_dir`, `filesize`) are replaced by a tree value. The model takes the node found at `path` as an argument and does not resolve path strings. `path` only flows into the child paths.
- A directory that exists but cannot be listed, such as one without read permission, is not representable. PHP's `is_dir` finds it at line 72, the recursive `scandir` returns false, and it adds 0 to the total.
- A path that names nothing is not representable. Per-entry `filesize` failures (PHP returns false) are not modelled.
- Symlinks and cycles are not modelled. An inductive tree is acyclic, and the code has no guard.
- `scandir`'s alphabetical sorting is not computed. The listing is taken in whatever order the tree holds it, and the total is proved independent of that order.
- Floating-point `log`, `pow`, `floor` and `round` in `format_bytes`, and the float division in the percentage, are replaced by exact arithmetic. Float error is not modelled. For example, `round(0.29, 2) * 100` is the float 28.999999999999996 in PHP, so the reported `percentage` is a float that is not always a whole number, while the model's is an integer.
- The decimal string rendering of the mantissa, such as "1.5" for 150/100, is not modelled. `Formatted` holds the exact rounded value and the suffix.
- Format.FormatBytes: takes `precision` as a natural number. PHP's `round` also accepts a negative precision, which rounds to tens or hundreds, and that is not modelled.
- The undefined-array-key warning PHP emits for a size of 1024^5 bytes or more is not modelled. Only the empty suffix it leads to is.
- Format.FormatBytes: does not distinguish the float `-INF` and `NAN` intermediates of a count below 1. Both lead to the one result "NAN", shown as `NotANumber`.
- Non-integer disk limits are not modelled. PHP accepts a float, and the limit here is an integer.
- PHP's 64-bit integer overflow into floats for very large sizes or limits is not modelled. Integers here are unbounded.
- The unused `$disk_limit` argument that `get_quota` passes to `get_used` is dropped, and so is the `(array)` cast of the result.
