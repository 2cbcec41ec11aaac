/**
  The Scaphandre RAPL energy source of the power-monitoring agent. Scaphandre
  exposes one text file per CPU package, holding that package's cumulative
  energy counter in microjoules as a decimal number. At start-up the source
  records which packages have a readable counter file; each query then
  re-reads those files, converts each counter to millijoules, and reports
  either the per-package values or their sum.

  The file system is an input: a map from path to the file's current
  contents, where a path that is absent cannot be read. Each query takes the
  file system as it is at the time of the call.
 */
module Scaphandre {
  import opened Text
  import opened Decimal

  datatype Option<T> = None | Some(value: T)

  type FileSystem = map<string, string>

  /** The error of the two energy domains this source cannot measure. */
  datatype EnergyError = NotSupported

  /** The per-package record of the shared energy-source interface. */
  datatype NodeComponentsEnergy = NodeComponentsEnergy(core: Uint64, dram: Uint64, uncore: Uint64, pkg: Uint64)

  const Two64: nat := MaxUint64 + 1

  /** The largest converted reading, (2^64 - 1) / 1000. */
  const MaxReading: nat := 18_446_744_073_709_551

  /** Scaphandre's directory for package `i`: "/var/scaphandre/intel-rapl:%d/". */
  function PackageDir(i: nat): string {
    "/var/scaphandre/intel-rapl:" + FormatNat(i) + "/"
  }

  /** The counter file of package `i`. */
  function PackagePath(energyFile: string, i: nat): string {
    PackageDir(i) + energyFile
  }

  /** Distinct packages have distinct counter files. */
  lemma PackagePathInjective(energyFile: string, i: nat, j: nat)
    requires PackagePath(energyFile, i) == PackagePath(energyFile, j)
    ensures i == j
  {
    var prefix := "/var/scaphandre/intel-rapl:";
    var a, b := FormatNat(i), FormatNat(j);
    var x, y := a + "/" + energyFile, b + "/" + energyFile;
    assert PackagePath(energyFile, i) == prefix + x;
    assert PackagePath(energyFile, j) == prefix + y;
    assert x == (prefix + x)[|prefix|..];
    assert y == (prefix + y)[|prefix|..];
    // The first '/' ends the package number, which has digits only.
    assert |a| == |b|;
    assert a == x[..|a|] && b == y[..|b|];
    FormatNatInjective(i, j);
  }

  /** The path table after discovery: keys are package indices below the
      package count, and each maps to that package's counter file. */
  ghost predicate PathTable(paths: map<int, string>, energyFile: string, numPackages: int) {
    forall k :: k in paths ==> 0 <= k < numPackages && paths[k] == PackagePath(energyFile, k)
  }

  /** The start-up discovery: probes the packages 0 .. numPackages - 1 and
      keeps the path of each whose counter file could be read. */
  method DiscoverPaths(energyFile: string, numPackages: int, fs: FileSystem) returns (paths: map<int, string>)
    ensures PathTable(paths, energyFile, numPackages)
    ensures forall i :: i in paths <==> 0 <= i < numPackages && PackagePath(energyFile, i) in fs
  {
    paths := map[];
    var i := 0;
    while i < numPackages
      invariant 0 <= i && (i <= numPackages || i == 0)
      invariant PathTable(paths, energyFile, i)
      invariant forall k :: k in paths <==> 0 <= k < i && PackagePath(energyFile, k) in fs
    {
      var packagePath := PackagePath(energyFile, i);
      if packagePath in fs {
        paths := paths[i := packagePath];
      }
      i := i + 1;
    }
  }

  /** One counter file's contents converted to millijoules: the trimmed text
      must be a decimal number below 2^64, which is divided by 1000. */
  function ParseEnergy(contents: string): (e: Option<Uint64>)
    ensures var t := TrimSpace(contents);
            e.Some? <==> t != [] && AllDigits(t) && Value(t) <= MaxUint64
    ensures var t := TrimSpace(contents);
            e.Some? ==> AllDigits(t) && e.value == Value(t) / 1000
    ensures e.Some? ==> e.value <= MaxReading
  {
    match ParseUint(TrimSpace(contents))
    case Parsed(n) => Some(n / 1000)
    case Failed(_) => None
  }

  /** A counter written in decimal, with white space around it, converts to
      its value in millijoules when it fits in 64 bits, and to nothing when it
      does not. */
  lemma ParseEnergyOfCounter(lead: string, n: nat, trail: string)
    requires AllSpace(lead) && AllSpace(trail)
    ensures ParseEnergy(lead + FormatNat(n) + trail) == if n <= MaxUint64 then Some(n / 1000) else None
  {
    var t := FormatNat(n);
    assert IsDigit(t[0]) && IsDigit(t[|t| - 1]);
    TrimSpacePadded(lead, t, trail);
  }

  /** A file with nothing but white space in it holds no reading. */
  lemma ParseEnergyOfBlank(contents: string)
    requires AllSpace(contents)
    ensures ParseEnergy(contents) == None
  {
    TrimSpaceSlice(contents);
  }

  /** Text that is not an unsigned decimal number holds no reading. */
  lemma ParseEnergyExamplesMalformed()
    ensures ParseEnergy("abc") == None
    ensures ParseEnergy("") == None
    ensures ParseEnergy("-5") == None && ParseEnergy("+5") == None
  {
    ParseEnergyOfBlank("");
    TrimSpacePadded("", "abc", "");
    assert "" + "abc" + "" == "abc";
    TrimSpacePadded("", "-5", "");
    assert "" + "-5" + "" == "-5";
    TrimSpacePadded("", "+5", "");
    assert "" + "+5" + "" == "+5";
  }

  /** Reading and converting the counter file at `path`: nothing when the
      file cannot be read or does not hold a number. */
  function ReadPackage(fs: FileSystem, path: string): Option<Uint64> {
    if path in fs then ParseEnergy(fs[path]) else None
  }

  /** What a read of all packages yields: the converted value of every package
      of the table whose file reads and converts. */
  function Readings(fs: FileSystem, paths: map<int, string>): map<int, Uint64> {
    map k | k in paths && ReadPackage(fs, paths[k]).Some? :: ReadPackage(fs, paths[k]).value
  }

  /** Each package's reading depends on its own entry only: reading a table
      without package `p` gives the readings of the whole table without `p`. */
  lemma ReadingsWithout(fs: FileSystem, paths: map<int, string>, p: int)
    ensures Readings(fs, paths - {p}) == Readings(fs, paths) - {p}
  {
    var r, r' := Readings(fs, paths), Readings(fs, paths - {p});
    assert r'.Keys == r.Keys - {p};
  }

  /** A package whose file cannot be read or converted is dropped, and the
      result is the same as if it had not been in the table at all. */
  lemma FailedPackageDropped(fs: FileSystem, paths: map<int, string>, p: int)
    requires p in paths && ReadPackage(fs, paths[p]).None?
    ensures p !in Readings(fs, paths)
    ensures Readings(fs, paths) == Readings(fs, paths - {p})
  {
    ReadingsWithout(fs, paths, p);
    assert Readings(fs, paths) - {p} == Readings(fs, paths);
  }

  /** Two file systems that differ at most in the file at `path`. */
  ghost predicate AgreeExcept(fs: FileSystem, fs': FileSystem, path: string) {
    && (forall other :: other in fs && other != path ==> other in fs' && fs'[other] == fs[other])
    && (forall other :: other in fs' && other != path ==> other in fs)
  }

  /** With a discovered table, changing, removing or corrupting the counter
      file of package `p` changes no other package's reading. */
  lemma OnePackageFileIsolated(fs: FileSystem, fs': FileSystem, paths: map<int, string>,
                               energyFile: string, numPackages: int, p: nat)
    requires PathTable(paths, energyFile, numPackages)
    requires AgreeExcept(fs, fs', PackagePath(energyFile, p))
    ensures Readings(fs', paths) - {p} == Readings(fs, paths) - {p}
  {
    var others := paths - {p};
    forall q | q in others
      ensures ReadPackage(fs', others[q]) == ReadPackage(fs, others[q])
    {
      OtherPackageFile(fs, fs', paths, energyFile, numPackages, p, q);
    }
    ReadingsCongruent(fs, fs', others);
    ReadingsWithout(fs, paths, p);
    ReadingsWithout(fs', paths, p);
  }

  /** Readings depend only on what each package's own file yields. */
  lemma ReadingsCongruent(fs: FileSystem, fs': FileSystem, paths: map<int, string>)
    requires forall q :: q in paths ==> ReadPackage(fs', paths[q]) == ReadPackage(fs, paths[q])
    ensures Readings(fs', paths) == Readings(fs, paths)
  {
    var r, r' := Readings(fs, paths), Readings(fs', paths);
    forall q | q in paths
      ensures (q in r <==> q in r') && (q in r ==> r[q] == r'[q])
    {
      var e := ReadPackage(fs, paths[q]);
      assert e == ReadPackage(fs', paths[q]);
    }
    assert r'.Keys == r.Keys;
  }

  lemma OtherPackageFile(fs: FileSystem, fs': FileSystem, paths: map<int, string>,
                         energyFile: string, numPackages: int, p: nat, q: int)
    requires PathTable(paths, energyFile, numPackages)
    requires AgreeExcept(fs, fs', PackagePath(energyFile, p))
    requires q in paths && q != p
    ensures ReadPackage(fs', paths[q]) == ReadPackage(fs, paths[q])
  {
    var path := paths[q];
    assert path == PackagePath(energyFile, q);
    if path == PackagePath(energyFile, p) {
      PackagePathInjective(energyFile, q, p);
    }
    assert path in fs <==> path in fs';
  }

  /** A set that is not empty has an element to pick. */
  lemma HasElement(s: set<int>)
    ensures s == {} || exists x :: x in s
  {
    if forall x :: x !in s {
      assert s == {};
    }
  }

  /** A proof helper: a subset is no larger than the set containing it. */
  lemma SubsetCard(a: set<int>, b: set<int>)
    requires a <= b
    ensures |a| <= |b|
  {
    assert b == a + (b - a);
  }

  /** Removing a key of a map shrinks it by one. */
  lemma RemoveKey(m: map<int, Uint64>, k: int)
    requires k in m
    ensures |m - {k}| == |m| - 1
  {
    assert m.Keys == (m - {k}).Keys + {k};
  }

  /** The sum of the values of a map, without wrap-around. */
  ghost function SumValues(m: map<int, Uint64>): nat
    decreases |m|
  {
    if m.Keys == {} then 0
    else
      HasElement(m.Keys);
      var k :| k in m.Keys;
      RemoveKey(m, k);
      m[k] + SumValues(m - {k})
  }

  /** The sum does not depend on the key it is taken apart at, so any order of
      adding the values up gives it. */
  lemma {:induction false} SumValuesRemove(m: map<int, Uint64>, k: int)
    requires k in m
    ensures SumValues(m) == m[k] + SumValues(m - {k})
    decreases |m|
  {
    var j :| j in m && SumValues(m) == m[j] + SumValues(m - {j});
    if j != k {
      var mj, mk := m - {j}, m - {k};
      RemoveKey(m, j);
      RemoveKey(m, k);
      SumValuesRemove(mj, k);
      SumValuesRemove(mk, j);
      assert mj - {k} == mk - {j};
    }
  }

  /** A sum of `|m|` converted readings is at most `|m|` times the largest. */
  lemma {:induction false} SumValuesBound(m: map<int, Uint64>)
    requires forall k :: k in m ==> m[k] <= MaxReading
    ensures SumValues(m) <= |m| * MaxReading
    decreases |m|
  {
    if m.Keys != {} {
      HasElement(m.Keys);
      var k :| k in m.Keys;
      var rest := m - {k};
      assert |rest| + 1 == |m| by { assert m.Keys == rest.Keys + {k}; }
      SumValuesRemove(m, k);
      SumValuesBound(rest);
    }
  }

  /** Converted readings are below 2^64 / 1000, so up to 1000 packages never
      make their uint64 sum wrap around. */
  lemma ReadingsSumFits(fs: FileSystem, paths: map<int, string>)
    requires |paths| <= 1000
    ensures SumValues(Readings(fs, paths)) <= MaxUint64
  {
    var r := Readings(fs, paths);
    assert r.Keys <= paths.Keys;
    SubsetCard(r.Keys, paths.Keys);
    SumValuesBound(r);
  }

  lemma NoWrap(x: nat)
    requires x <= MaxUint64
    ensures x % Two64 == x
  {
  }

  /** Adding in uint64 to a total kept modulo 2^64 keeps it modulo 2^64. */
  lemma AddStep(energy: nat, exact: nat, e: nat)
    requires energy == exact % Two64
    ensures (energy + e) % Two64 == (exact + e) % Two64
  {
  }

  /** The accumulation loop of the total: adds the values up one by one in
      uint64, in whatever order the map is walked, so the total is the sum
      modulo 2^64. */
  method AddUp(energyMap: map<int, Uint64>) returns (energy: Uint64)
    ensures energy == SumValues(energyMap) % Two64
  {
    energy := 0;
    ghost var exact: nat := 0;
    var rest := energyMap;
    while rest.Keys != {}
      invariant energy == exact % Two64
      invariant exact + SumValues(rest) == SumValues(energyMap)
      decreases |rest|
    {
      HasElement(rest.Keys);
      var k :| k in rest;
      var e, others := rest[k], rest - {k};
      SumValuesRemove(rest, k);
      AddStep(energy, exact, e);
      energy, exact := (energy + e) % Two64, exact + e;
      assert |others| < |rest| by { assert rest.Keys == others.Keys + {k}; }
      rest := others;
    }
  }

  /** The record of one package: this source cannot tell the domains of a
      package apart, so its one value is reported as core and as package
      energy, and DRAM and uncore energy are zero. */
  function PackageRecord(e: Uint64): NodeComponentsEnergy {
    NodeComponentsEnergy(core := e, dram := 0, uncore := 0, pkg := e)
  }

  /** The energy source. Its path table is built once, by the constructor,
      and never changes afterwards; every query re-reads the files. */
  class PowerScaphandre {
    const energyFile: string
    const numPackages: int
    const eventPaths: map<int, string>

    ghost predicate Valid() {
      PathTable(eventPaths, energyFile, numPackages)
    }

    /** Discovery: the table holds a package exactly when its counter file
        could be read at start-up. */
    constructor (energyFile: string, numPackages: int, fs: FileSystem)
      ensures this.energyFile == energyFile && this.numPackages == numPackages
      ensures Valid()
      ensures forall i :: i in eventPaths <==> 0 <= i < numPackages && PackagePath(energyFile, i) in fs
    {
      this.energyFile := energyFile;
      this.numPackages := numPackages;
      var paths := DiscoverPaths(energyFile, numPackages, fs);
      eventPaths := paths;
    }

    /** Reads every package of the table; a package whose file cannot be read
        or does not hold a number is left out and the others are kept. */
    method ReadScaphandreEnergy(fs: FileSystem) returns (energy: map<int, Uint64>)
      ensures forall k :: k in energy <==> k in eventPaths && ReadPackage(fs, eventPaths[k]).Some?
      ensures forall k :: k in energy ==> energy[k] == ReadPackage(fs, eventPaths[k]).value
      ensures energy == Readings(fs, eventPaths)
    {
      energy := map[];
      var pending := eventPaths.Keys;
      while pending != {}
        invariant pending <= eventPaths.Keys
        invariant forall k :: k in energy <==> k in eventPaths && k !in pending && ReadPackage(fs, eventPaths[k]).Some?
        invariant forall k :: k in energy ==> energy[k] == ReadPackage(fs, eventPaths[k]).value
        decreases pending
      {
        HasElement(pending);
        var pkID :| pkID in pending;
        pending := pending - {pkID};
        var path := eventPaths[pkID];
        if path !in fs {
          continue;
        }
        var parsed := ParseUint(TrimSpace(fs[path]));
        if parsed.Failed? {
          continue;
        }
        var e := parsed.value / 1000;
        energy := energy[pkID := e];
      }
    }

    /** The total over all packages, added up in uint64 and so modulo 2^64;
        it never fails, and it is 0 when no package can be read. */
    method GetScaphandreEnergy(fs: FileSystem) returns (energy: Uint64, err: Option<EnergyError>)
      ensures err == None
      ensures energy == SumValues(Readings(fs, eventPaths)) % Two64
      ensures |eventPaths| <= 1000 ==> energy == SumValues(Readings(fs, eventPaths))
      ensures Readings(fs, eventPaths) == map[] ==> energy == 0
    {
      var energyMap := ReadScaphandreEnergy(fs);
      energy := AddUp(energyMap);
      if |eventPaths| <= 1000 {
        ReadingsSumFits(fs, eventPaths);
        NoWrap(SumValues(energyMap));
      }
      err := None;
    }

    /** Whether the platform offers this source: package 0's counter file can
        be read now. Neither the path table nor any other package matters. */
    function IsSystemCollectionSupported(fs: FileSystem): (ok: bool)
      ensures ok <==> PackagePath(energyFile, 0) in fs
    {
      var path := PackageDir(0);
      path + energyFile in fs
    }

    /** DRAM energy is not measured by this source. */
    function GetAbsEnergyFromDram(): (r: (Uint64, Option<EnergyError>))
      ensures r.0 == 0 && r.1 == Some(NotSupported)
    {
      (0, Some(NotSupported))
    }

    /** Core energy is not measured by this source. */
    function GetAbsEnergyFromCore(): (r: (Uint64, Option<EnergyError>))
      ensures r.0 == 0 && r.1 == Some(NotSupported)
    {
      (0, Some(NotSupported))
    }

    /** Uncore energy is reported as the total over all packages. */
    method GetAbsEnergyFromUncore(fs: FileSystem) returns (energy: Uint64, err: Option<EnergyError>)
      ensures err == None
      ensures energy == SumValues(Readings(fs, eventPaths)) % Two64
    {
      energy, err := GetScaphandreEnergy(fs);
    }

    /** Package energy is reported as the total over all packages. */
    method GetAbsEnergyFromPackage(fs: FileSystem) returns (energy: Uint64, err: Option<EnergyError>)
      ensures err == None
      ensures energy == SumValues(Readings(fs, eventPaths)) % Two64
    {
      energy, err := GetScaphandreEnergy(fs);
    }

    /** One record per package that reads, with the package's value as core
        and package energy and zero as DRAM and uncore energy. */
    method GetAbsEnergyFromNodeComponents(fs: FileSystem) returns (packageEnergies: map<int, NodeComponentsEnergy>)
      ensures packageEnergies.Keys == Readings(fs, eventPaths).Keys
      ensures forall k :: k in packageEnergies ==>
                var e := Readings(fs, eventPaths)[k];
                packageEnergies[k] == NodeComponentsEnergy(core := e, dram := 0, uncore := 0, pkg := e)
    {
      packageEnergies := map[];
      var pkgEnergies := ReadScaphandreEnergy(fs);
      var pending := pkgEnergies.Keys;
      while pending != {}
        invariant pending <= pkgEnergies.Keys
        invariant packageEnergies.Keys == pkgEnergies.Keys - pending
        invariant forall k :: k in packageEnergies ==> packageEnergies[k] == PackageRecord(pkgEnergies[k])
        decreases pending
      {
        HasElement(pending);
        var pkgID :| pkgID in pending;
        pending := pending - {pkgID};
        packageEnergies := packageEnergies[pkgID := PackageRecord(pkgEnergies[pkgID])];
      }
    }
  }

  /** The capability check agrees with discovery: with the file system of
      start-up and at least one package, it holds exactly when package 0 was
      discovered. */
  lemma SupportedIffPackageZeroDiscovered(source: PowerScaphandre, fs: FileSystem)
    requires source.numPackages >= 1
    requires forall i :: i in source.eventPaths <==> 0 <= i < source.numPackages && PackagePath(source.energyFile, i) in fs
    ensures source.IsSystemCollectionSupported(fs) <==> 0 in source.eventPaths
  {
  }

  /** For a source built by discovery, corrupting or removing the counter
      file of package `p` leaves every other package's reading as it was. */
  lemma SourcePackageFileIsolated(source: PowerScaphandre, fs: FileSystem, fs': FileSystem, p: nat)
    requires source.Valid()
    requires AgreeExcept(fs, fs', PackagePath(source.energyFile, p))
    ensures forall q :: q != p ==> (q in Readings(fs', source.eventPaths) <==> q in Readings(fs, source.eventPaths))
    ensures forall q :: q != p && q in Readings(fs, source.eventPaths) ==>
              Readings(fs', source.eventPaths)[q] == Readings(fs, source.eventPaths)[q]
  {
    OnePackageFileIsolated(fs, fs', source.eventPaths, source.energyFile, source.numPackages, p);
    var r, r' := Readings(fs, source.eventPaths), Readings(fs', source.eventPaths);
    forall q | q != p
      ensures (q in r' <==> q in r) && (q in r ==> r'[q] == r[q])
    {
      assert (q in r' <==> q in r' - {p}) && (q in r <==> q in r - {p});
      if q in r {
        assert r'[q] == (r' - {p})[q] && r[q] == (r - {p})[q];
      }
    }
  }
}
