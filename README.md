# Scaphandre RAPL energy source, modelled in Dafny

Kepler's power-monitoring agent can read CPU energy from Scaphandre. Scaphandre
exposes one text file per CPU package, `/var/scaphandre/intel-rapl:<i>/<energyFile>`.
Each file holds that package's cumulative energy counter in microjoules, written
in decimal.

The model covers what `PowerScaphandre` does with those files:

- **Discovery.** At start-up it probes packages `0 .. numPackages-1` and keeps
  the path of every package whose file can be read.
- **Read-all.** A query re-reads every discovered file, trims white space,
  parses the text as a base-10 `uint64` and divides by 1000 to get millijoules.
  A package whose file cannot be read or parsed is skipped; the others are kept.
- **Aggregate.** The total is the `uint64` sum of the per-package values, so it
  wraps modulo 2^64, and it never fails.
- **Domains.** Uncore and package energy are the total; core and DRAM energy
  fail with "not supported". The per-package records have core and package
  energy equal to the package's value and DRAM and uncore energy equal to zero.
- **Capability query.** The source is usable exactly when package 0's counter
  file can be read now.

The file system is a parameter: a `map<string, string>` from path to the file's
current contents. A path that is absent cannot be read. Each query takes the
file system as it is at the time of the call.

Files:

- `text.dfy` (module `Text`): Go's `strings.TrimSpace`, for ASCII white space.
- `decimal.dfy` (module `Decimal`): Go's `strconv.ParseUint(s, 10, 64)`, and
  the `%d` formatting used to build the package paths.
- `rapl_scaphandre.dfy` (module `Scaphandre`): the conversion of one file and
  the read-all specification `Readings`, with lemmas on failure isolation and
  on sums. The class `PowerScaphandre` has the discovery constructor and the
  query methods, each proved against that specification.

The path table is a `const` field that only the constructor sets, so no query
can change it. The Go code keeps it in a package-level variable that only
`init` writes.

Map iteration order in Go is unspecified. The loops here pick an arbitrary
remaining key with `:|`, so every proof covers every order. `SumValues` is the
order-free sum of a map's values, and `SumValuesRemove` shows that taking the
map apart at any key gives the same sum.

## Model

| member | source | states |
|---|---|---|
| Text.TrimSpaceSlice | pkg/sensors/components/source/rapl_scaphandre.go:63 | The trimmed text is a slice of the file contents with only white space before and after it. It neither starts nor ends with white space. It is empty exactly when the contents are all white space. |
| Text.TrimSpacePadded | pkg/sensors/components/source/rapl_scaphandre.go:63 | Trimming a text with white space on both sides, where the text itself neither starts nor ends with white space, gives back exactly that text. |
| Text.TrimSpaceIdempotent | pkg/sensors/components/source/rapl_scaphandre.go:63 | Trimming twice gives the same result as trimming once. |
| Decimal.Scan | pkg/sensors/components/source/rapl_scaphandre.go:63 | The digit loop of ParseUint succeeds exactly when the whole string is digits whose value fits in 64 bits, and then yields that value. A failure on an all-digit string is a range error. A non-digit reached while the digits before it still fit in 64 bits is a syntax error. |
| Decimal.ParseUint | pkg/sensors/components/source/rapl_scaphandre.go:63 | Parsing succeeds exactly on a non-empty string of decimal digits whose value is at most 2^64 - 1, and then yields that value. The empty string, and a sign, a space or any other non-digit reached before the value overflows, are syntax errors. A digit string that is too large is a range error. |
| Decimal.FormatNat | pkg/sensors/components/source/rapl_scaphandre.go:29 | `%d` of a package index is a non-empty digit string denoting the index, with no leading zero. |
| Decimal.ParseFormat | pkg/sensors/components/source/rapl_scaphandre.go:63 | Parsing the decimal text of any 64-bit value gives that value back. |
| Decimal.FormatNatInjective | pkg/sensors/components/source/rapl_scaphandre.go:39 | Distinct indices are written as distinct digit strings. |
| Scaphandre.PackagePathInjective | pkg/sensors/components/source/rapl_scaphandre.go:28-30 | Distinct package indices get distinct counter-file paths, so no two packages share a file. |
| Scaphandre.DiscoverPaths | pkg/sensors/components/source/rapl_scaphandre.go:36-45 | The discovery loop builds a table whose keys all lie in `[0, numPackages)` and map to their own templated path. An index is present exactly when its file can be read. |
| Scaphandre.ParseEnergy | pkg/sensors/components/source/rapl_scaphandre.go:63-67 | A file's contents give a reading exactly when the trimmed text is a non-empty decimal number of at most 2^64 - 1. The reading is that number divided by 1000, rounded down, and never exceeds (2^64 - 1) / 1000. |
| Scaphandre.ParseEnergyOfCounter | pkg/sensors/components/source/rapl_scaphandre.go:63-67 | A counter `n` written in decimal, with any white space around it (e.g. a trailing newline), reads as `n / 1000` when `n < 2^64`, and as nothing otherwise. So 45000000 reads as 45000 and 999 as 0. |
| Scaphandre.ParseEnergyOfBlank | pkg/sensors/components/source/rapl_scaphandre.go:63-66 | A file holding only white space, or nothing, gives no reading. |
| Scaphandre.ParseEnergyExamplesMalformed | pkg/sensors/components/source/rapl_scaphandre.go:63-66 | `"abc"`, the empty text, `"-5"` and `"+5"` give no reading. |
| Scaphandre.ReadingsWithout | pkg/sensors/components/source/rapl_scaphandre.go:58-69 | Removing a package from the path table removes exactly that package from the readings and leaves every other reading as it was. |
| Scaphandre.FailedPackageDropped | pkg/sensors/components/source/rapl_scaphandre.go:59-66 | A package whose file cannot be read or parsed is absent from the readings. The readings are the same as if that package were not in the table at all. |
| Scaphandre.OnePackageFileIsolated | pkg/sensors/components/source/rapl_scaphandre.go:58-69 | For a discovered table, changing, removing or corrupting one package's counter file leaves every other package's reading unchanged. |
| Scaphandre.SourcePackageFileIsolated | pkg/sensors/components/source/rapl_scaphandre.go:58-69 | For a source built by discovery, corrupting or removing one package's counter file leaves every other package's presence and value in the readings unchanged. |
| Scaphandre.SumValuesRemove | pkg/sensors/components/source/rapl_scaphandre.go:77-79 | The sum of a map's values is any one value plus the sum of the rest, so the order the map is iterated in does not change the total. |
| Scaphandre.SumValuesBound | pkg/sensors/components/source/rapl_scaphandre.go:67-68 | A sum of `m` converted readings is at most `m` times the largest possible reading. |
| Scaphandre.ReadingsSumFits | pkg/sensors/components/source/rapl_scaphandre.go:74-81 | With at most 1000 packages, the exact sum of the readings fits in a `uint64`, so line 78 never wraps. |
| Scaphandre.AddUp | pkg/sensors/components/source/rapl_scaphandre.go:75-79 | The accumulation loop returns the sum of the map's values modulo 2^64, which is the wrap-around `uint64` sum. |
| Scaphandre.PowerScaphandre.constructor | pkg/sensors/components/source/rapl_scaphandre.go:36-45 | Discovery: the table holds a package index exactly when it is in `[0, numPackages)` and its counter file is readable at start-up. It then maps the index to that file's path. |
| Scaphandre.PowerScaphandre.ReadScaphandreEnergy | pkg/sensors/components/source/rapl_scaphandre.go:53-71 | The result has a package exactly when the package is in the table and its file both reads and parses. Its value is the parsed counter divided by 1000. The result equals the read-all specification `Readings`. |
| Scaphandre.PowerScaphandre.GetScaphandreEnergy | pkg/sensors/components/source/rapl_scaphandre.go:74-81 | Never returns an error. The energy is the sum of all readings modulo 2^64. It is the exact sum when there are at most 1000 packages, and 0 when nothing reads. |
| Scaphandre.PowerScaphandre.IsSystemCollectionSupported | pkg/sensors/components/source/rapl_scaphandre.go:83-87 | True exactly when package 0's counter file is readable now. It does not consult the path table. |
| Scaphandre.PowerScaphandre.GetAbsEnergyFromDram | pkg/sensors/components/source/rapl_scaphandre.go:89-91 | Always returns 0 with the "not supported" error. |
| Scaphandre.PowerScaphandre.GetAbsEnergyFromCore | pkg/sensors/components/source/rapl_scaphandre.go:93-95 | Always returns 0 with the "not supported" error. |
| Scaphandre.PowerScaphandre.GetAbsEnergyFromUncore | pkg/sensors/components/source/rapl_scaphandre.go:97-99 | Returns the aggregate: no error, and the sum of all readings modulo 2^64. |
| Scaphandre.PowerScaphandre.GetAbsEnergyFromPackage | pkg/sensors/components/source/rapl_scaphandre.go:101-103 | Returns the aggregate: no error, and the sum of all readings modulo 2^64. |
| Scaphandre.PowerScaphandre.GetAbsEnergyFromNodeComponents | pkg/sensors/components/source/rapl_scaphandre.go:105-118 | Has exactly the packages of the read-all result. For each package with reading `e`, the record is core `e`, DRAM 0, uncore 0, package `e`. |
| Scaphandre.SupportedIffPackageZeroDiscovered | pkg/sensors/components/source/rapl_scaphandre.go:83-87 | On the start-up file system with at least one package, the capability query holds exactly when discovery kept package 0. |

## Left out

- File reads (`os.ReadFile`) are replaced by lookups in a file-system snapshot that each call takes as a parameter. A file that changes while a loop runs is not modelled.
- The `klog` diagnostics on lines 60 and 64 are left out; they do not affect control flow.
- `numPackages`, `energyFile` and `NodeComponentsEnergy` are defined outside `rapl_scaphandre.go` and are not part of this model. The first two are constructor parameters; the record is a plain datatype with the four fields the file sets.
- The package-level variable `scaphandreEventPaths` and Go's `init` hook become a `const` field set by the constructor.
- `GetName` (returns a constant string) and `StopPower` (does nothing) are left out as trivial.
- The error value `fmt.Errorf("not supported")` is modelled as the single error `NotSupported`, without its message text.
- `Text.TrimSpace` recognises only the six ASCII white-space characters. Go's `strings.TrimSpace` also strips Unicode white space such as U+0085 and U+00A0.
- `Scaphandre.PackagePath` assumes `energyFile` contains no `%`. Line 39 passes `energyFile` through `Sprintf` as part of the format, while line 85 appends it after formatting; the two agree only for such names.
- `Decimal.ParseUint`: for a string whose digits overflow before its first non-digit, the contract states only that parsing fails, not that the error is a range error. Its body, `Decimal.Scan`, returns the range error, as `strconv` does.
- `Decimal.Scan`: the same gap; for digits that overflow before a later non-digit, the contract states only that the scan fails, while the body returns the range error.
- `Scaphandre.PowerScaphandre.GetAbsEnergyFromUncore` and `Scaphandre.PowerScaphandre.GetAbsEnergyFromPackage`: the contracts omit the no-wrap bound for 1000 or fewer packages that `GetScaphandreEnergy` states. Both bodies return exactly its result.
- Go's `strconv` error values carry the offending text and function name; the model keeps only the kind (`ErrSyntax` or `ErrRange`).
