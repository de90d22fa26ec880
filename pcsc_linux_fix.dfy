/**
 * Model of LibJ2PCSCGNULinuxFix: on GNU/Linux, find the versioned pcsclite shared
 * library ("libpcsclite.so.1") along java.library.path, extended with the Ubuntu
 * multilib directory when one applies, and publish its path in the system property
 * "sun.security.smartcardio.library" so that the JRE's PC/SC layer loads that file.
 *
 * The environment is explicit: system properties are a map from key to value (a key
 * that is absent reads as Java's null), and the file system is the set of paths that
 * are directories and the set of paths that exist.
 */
module LibJ2PCSCGNULinuxFix {
  import opened Wrappers
  import opened JavaString

  const PcscLibraryVersion: int := 1
  const SmartcardioLibraryProperty: string := "sun.security.smartcardio.library"
  const LibraryPathProperty: string := "java.library.path"
  const GnuLinuxOsPropertyPrefix: string := "Linux"
  const PcscLibraryName: string := "pcsclite"
  const UbuntuMultilib32Path: string := "/lib/i386-linux-gnu"
  const UbuntuMultilib64Path: string := "/lib/x86_64-linux-gnu"
  const JreBitnessProperty: string := "os.arch"
  const OsNameProperty: string := "os.name"
  const JreBitness32Value: string := "i386"
  const JreBitness64Value: string := "amd64"

  /** The Ubuntu-style multilib layouts the fix tells apart. */
  datatype UbuntuBitness = NA | Pure32 | Pure64 | Multilib

  /** What java.io.File can observe of the file system. */
  datatype FileSystem = FileSystem(directories: set<string>, files: set<string>) {

    /** File.isDirectory */
    predicate IsDirectory(path: string) {
      path in directories
    }

    /** File.exists: true of files and of directories alike. */
    predicate Exists(path: string) {
      path in files || path in directories
    }
  }

  /** System.getProperty over a property map: a key that is not set reads as null. */
  function GetProperty(properties: map<string, string>, key: string): Option<string> {
    if key in properties then Some(properties[key]) else None
  }

  /** The platform gate: os.name is set and starts with "Linux". */
  predicate IsGnuLinux(osName: Option<string>) {
    osName.Some? && StartsWith(osName.value, GnuLinuxOsPropertyPrefix)
  }

  // ---------------------------------------------------------------------------
  // Distribution classifier (getUbuntuBitness)
  // ---------------------------------------------------------------------------

  /** The classification getUbuntuBitness derives from the two directory checks. */
  function UbuntuBitnessOf(has32: bool, has64: bool): (b: UbuntuBitness)
    ensures b == Pure32 <==> has32 && !has64
    ensures b == Pure64 <==> !has32 && has64
    ensures b == Multilib <==> has32 && has64
    ensures b == NA <==> !has32 && !has64
  {
    if has32 && !has64 then Pure32
    else if !has32 && has64 then Pure64
    else if has32 && has64 then Multilib
    else NA
  }

  /** Whether a classification records the 32-bit multilib directory. */
  predicate Has32(b: UbuntuBitness) {
    b == Pure32 || b == Multilib
  }

  /** Whether a classification records the 64-bit multilib directory. */
  predicate Has64(b: UbuntuBitness) {
    b == Pure64 || b == Multilib
  }

  /** The classification loses nothing: the two checks can be read back from it, and
    * every variant is produced by exactly one pair of checks. */
  lemma UbuntuBitnessRoundTrip(has32: bool, has64: bool, b: UbuntuBitness)
    ensures Has32(UbuntuBitnessOf(has32, has64)) == has32
    ensures Has64(UbuntuBitnessOf(has32, has64)) == has64
    ensures UbuntuBitnessOf(Has32(b), Has64(b)) == b
  {
  }

  /** getUbuntuBitness: classify the host from the two multilib directories. */
  function GetUbuntuBitness(fs: FileSystem): (b: UbuntuBitness)
    ensures Has32(b) <==> fs.IsDirectory(UbuntuMultilib32Path)
    ensures Has64(b) <==> fs.IsDirectory(UbuntuMultilib64Path)
  {
    UbuntuBitnessOf(fs.IsDirectory(UbuntuMultilib32Path), fs.IsDirectory(UbuntuMultilib64Path))
  }

  // ---------------------------------------------------------------------------
  // Search-path augmenter (extendLibraryPath, fixPathForUbuntuMultiLib)
  // ---------------------------------------------------------------------------

  /** extendLibraryPath: append ":" + extension unless the extension already occurs in
    * the path as a substring. */
  function ExtendLibraryPath(libPath: string, extension: string): (r: string)
    ensures libPath <= r
    ensures Contains(r, extension)
    ensures Contains(libPath, extension) ==> r == libPath
    ensures !Contains(libPath, extension) ==> r == libPath + ":" + extension
  {
    if Contains(libPath, extension) then libPath
    else
      ContainsAppended(libPath + ":", extension);
      libPath + ":" + extension
  }

  /** Extending twice with the same directory is the same as extending once. */
  lemma ExtendLibraryPathIdempotent(libPath: string, extension: string)
    ensures ExtendLibraryPath(ExtendLibraryPath(libPath, extension), extension)
         == ExtendLibraryPath(libPath, extension)
  {
  }

  /** The substring guard also fires on a longer directory that merely contains the
    * extension: a path holding only /usr/lib/x86_64-linux-gnu is not extended with
    * /lib/x86_64-linux-gnu. */
  lemma SubstringGuardMatchesNestedDirectory()
    ensures ExtendLibraryPath("/usr/lib/x86_64-linux-gnu", UbuntuMultilib64Path)
         == "/usr/lib/x86_64-linux-gnu"
  {
  }

  /** fixPathForUbuntuMultiLib: add the multilib directory that matches the host's
    * layout and, on a dual-multilib host, the JRE's os.arch. */
  function FixPathForUbuntuMultiLib(libraryPath: string, bitness: UbuntuBitness,
                                    jvmBinaryArch: Option<string>): (r: string)
    ensures libraryPath <= r
    ensures r == libraryPath
         || r == libraryPath + ":" + UbuntuMultilib32Path
         || r == libraryPath + ":" + UbuntuMultilib64Path
    ensures bitness == NA ==> r == libraryPath
    ensures bitness == Pure32 ==> r == ExtendLibraryPath(libraryPath, UbuntuMultilib32Path)
    ensures bitness == Pure64 ==> r == ExtendLibraryPath(libraryPath, UbuntuMultilib64Path)
    ensures bitness == Multilib && jvmBinaryArch == Some(JreBitness32Value)
            ==> r == ExtendLibraryPath(libraryPath, UbuntuMultilib32Path)
    ensures bitness == Multilib && jvmBinaryArch == Some(JreBitness64Value)
            ==> r == ExtendLibraryPath(libraryPath, UbuntuMultilib64Path)
    ensures (bitness == Multilib && jvmBinaryArch != Some(JreBitness32Value)
             && jvmBinaryArch != Some(JreBitness64Value)) ==> r == libraryPath
  {
    match bitness
    case Pure32 => ExtendLibraryPath(libraryPath, UbuntuMultilib32Path)
    case Pure64 => ExtendLibraryPath(libraryPath, UbuntuMultilib64Path)
    case Multilib =>
      if jvmBinaryArch.None? then libraryPath
      else if jvmBinaryArch.value == JreBitness32Value then
        ExtendLibraryPath(libraryPath, UbuntuMultilib32Path)
      else if jvmBinaryArch.value == JreBitness64Value then
        ExtendLibraryPath(libraryPath, UbuntuMultilib64Path)
      else libraryPath
    case NA => libraryPath
  }

  /** Running the multilib fix on its own output changes nothing. */
  lemma FixPathIdempotent(libraryPath: string, bitness: UbuntuBitness, jvmBinaryArch: Option<string>)
    ensures FixPathForUbuntuMultiLib(FixPathForUbuntuMultiLib(libraryPath, bitness, jvmBinaryArch),
                                     bitness, jvmBinaryArch)
         == FixPathForUbuntuMultiLib(libraryPath, bitness, jvmBinaryArch)
  {
  }

  // ---------------------------------------------------------------------------
  // Library scanner (findGNULinuxNativeLibrary)
  // ---------------------------------------------------------------------------

  /** System.mapLibraryName under the GNU/Linux convention. */
  function MapLibraryName(libName: string): string {
    "lib" + libName + ".so"
  }

  /** The versioned file name the scan looks for: mapLibraryName(baseName) + "." + version. */
  function LibraryFileName(baseName: string, version: int): string {
    MapLibraryName(baseName) + "." + IntToString(version)
  }

  /** With the resolver's constants the scan looks for libpcsclite.so.1. */
  lemma PcscLibraryFileName()
    ensures LibraryFileName(PcscLibraryName, PcscLibraryVersion) == "libpcsclite.so.1"
  {
  }

  /** The version can be read back from the file name: after the mapped library name and
    * the dot come the decimal digits of the version. */
  lemma LibraryFileNameVersion(baseName: string, version: nat)
    ensures var f := LibraryFileName(baseName, version);
            var n := |MapLibraryName(baseName)| + 1;
            n <= |f| && f[..n] == MapLibraryName(baseName) + "."
            && (forall i :: n <= i < |f| ==> IsDigit(f[i]))
            && DecimalValue(f[n..]) == version
  {
    var f := LibraryFileName(baseName, version);
    var n := |MapLibraryName(baseName)| + 1;
    assert f[n..] == NatToString(version);
    NatToStringRoundTrip(version);
  }

  /** new File(dir, fileName): the child inside the directory named by the path entry. */
  function FilePath(dir: string, fileName: string): string {
    dir + "/" + fileName
  }

  /** The scan over the path entries, in order: the first entry whose `dir/fileName`
    * exists, or null when none does. */
  function FirstMatch(entries: seq<string>, fileName: string, fs: FileSystem): Option<string> {
    if entries == [] then None
    else if fs.Exists(FilePath(entries[0], fileName)) then Some(FilePath(entries[0], fileName))
    else FirstMatch(entries[1..], fileName, fs)
  }

  /** Entry `i` holds the file and no earlier entry does. */
  ghost predicate IsFirstHit(entries: seq<string>, fileName: string, fs: FileSystem, i: int) {
    && 0 <= i < |entries|
    && fs.Exists(FilePath(entries[i], fileName))
    && forall j :: 0 <= j < i ==> !fs.Exists(FilePath(entries[j], fileName))
  }

  /** A hit is the file in the first entry that has it; a miss means no entry has it. */
  lemma {:induction false} FirstMatchIsFirstHit(entries: seq<string>, fileName: string, fs: FileSystem)
    ensures FirstMatch(entries, fileName, fs).Some? ==>
              exists i :: IsFirstHit(entries, fileName, fs, i)
                          && FirstMatch(entries, fileName, fs).value == FilePath(entries[i], fileName)
    ensures FirstMatch(entries, fileName, fs).None? <==>
              forall i :: 0 <= i < |entries| ==> !fs.Exists(FilePath(entries[i], fileName))
  {
    if entries == [] {
    } else if fs.Exists(FilePath(entries[0], fileName)) {
      assert IsFirstHit(entries, fileName, fs, 0);
    } else {
      var rest := entries[1..];
      FirstMatchIsFirstHit(rest, fileName, fs);
      if FirstMatch(rest, fileName, fs).Some? {
        var i :| IsFirstHit(rest, fileName, fs, i)
                 && FirstMatch(rest, fileName, fs).value == FilePath(rest[i], fileName);
        assert IsFirstHit(entries, fileName, fs, i + 1);
      } else {
        forall i | 0 <= i < |entries|
          ensures !fs.Exists(FilePath(entries[i], fileName))
        {
          if i > 0 {
            assert entries[i] == rest[i - 1];
          }
        }
      }
    }
  }

  /** A directory added at the end of the path is searched only after every earlier entry. */
  lemma {:induction false} FirstMatchAppend(entries: seq<string>, dir: string, fileName: string, fs: FileSystem)
    ensures FirstMatch(entries + [dir], fileName, fs)
         == if FirstMatch(entries, fileName, fs).Some? then FirstMatch(entries, fileName, fs)
            else if fs.Exists(FilePath(dir, fileName)) then Some(FilePath(dir, fileName))
            else None
  {
    if entries == [] {
      assert entries + [dir] == [dir];
    } else {
      assert (entries + [dir])[1..] == entries[1..] + [dir];
      FirstMatchAppend(entries[1..], dir, fileName, fs);
    }
  }

  /** The scan keeps the order of the path: with the file in both /a and /b, the search
    * path "/a:/b" resolves to the copy in /a. */
  lemma ScanPrefersEarlierEntry(fileName: string, fs: FileSystem)
    requires fs.Exists(FilePath("/a", fileName)) && fs.Exists(FilePath("/b", fileName))
    ensures FirstMatch(Split("/a:/b", ':'), fileName, fs) == Some(FilePath("/a", fileName))
  {
    var s: string := "/a:/b";
    assert s[0] == '/' && s[1] == 'a' && s[2] == ':';
    assert IndexOf(s, ':') == 2;
    assert s[..2] == "/a" && s[3..] == "/b";
    assert ':' !in "/b";
    assert Split(s, ':') == ["/a", "/b"];
  }

  /** An empty search path is not a guaranteed miss: split gives one empty entry, and a
    * file with an empty parent resolves against the root directory. */
  lemma EmptyPathScansRoot(fileName: string, fs: FileSystem)
    ensures FirstMatch(Split("", ':'), fileName, fs)
         == if fs.Exists("/" + fileName) then Some("/" + fileName) else None
  {
    assert FilePath("", fileName) == "/" + fileName;
  }

  /** java.library.path after the multilib fix, or null when it is not set. */
  function LibrarySearchPath(properties: map<string, string>, fs: FileSystem): (r: Option<string>)
    ensures r.None? <==> LibraryPathProperty !in properties
    ensures r.Some? ==> properties[LibraryPathProperty] <= r.value
  {
    match GetProperty(properties, LibraryPathProperty)
    case None => None
    case Some(original) =>
      Some(FixPathForUbuntuMultiLib(original, GetUbuntuBitness(fs),
                                    GetProperty(properties, JreBitnessProperty)))
  }

  /** What findGNULinuxNativeLibrary returns: the first `:`-separated entry of the fixed
    * search path that holds the versioned file, or null. */
  function NativeLibraryLookup(properties: map<string, string>, fs: FileSystem,
                               baseName: string, version: int): (r: Option<string>)
    ensures LibraryPathProperty !in properties ==> r == None
    ensures r.Some? ==> fs.Exists(r.value)
    ensures r.Some? ==>
              var entries := Split(LibrarySearchPath(properties, fs).value, ':');
              exists i :: IsFirstHit(entries, LibraryFileName(baseName, version), fs, i)
                          && r.value == FilePath(entries[i], LibraryFileName(baseName, version))
    ensures (LibraryPathProperty in properties && r.None?) ==>
              var entries := Split(LibrarySearchPath(properties, fs).value, ':');
              forall i :: 0 <= i < |entries|
                ==> !fs.Exists(FilePath(entries[i], LibraryFileName(baseName, version)))
  {
    match LibrarySearchPath(properties, fs)
    case None => None
    case Some(path) =>
      var entries := Split(path, ':');
      var fileName := LibraryFileName(baseName, version);
      FirstMatchIsFirstHit(entries, fileName, fs);
      FirstMatch(entries, fileName, fs)
  }

  /** When the fix appends a directory to the path, the scan goes through every field of
    * the original path (trailing empty ones included, since the path no longer ends in a
    * separator) before it looks in the added directory. */
  lemma AddedDirectorySearchedLast(original: string, dir: string, fileName: string, fs: FileSystem)
    requires ':' !in dir && dir != ""
    requires !Contains(original, dir)
    ensures FirstMatch(Split(ExtendLibraryPath(original, dir), ':'), fileName, fs)
         == if FirstMatch(Fields(original, ':'), fileName, fs).Some?
            then FirstMatch(Fields(original, ':'), fileName, fs)
            else if fs.Exists(FilePath(dir, fileName)) then Some(FilePath(dir, fileName))
            else None
  {
    assert ExtendLibraryPath(original, dir) == original + [':'] + dir;
    SplitAfterAppend(original, ':', dir);
    FirstMatchAppend(Fields(original, ':'), dir, fileName, fs);
  }

  // ---------------------------------------------------------------------------
  // Platform gate and publisher (fixNativeLibrary)
  // ---------------------------------------------------------------------------

  /** The system properties after fixNativeLibrary: on GNU/Linux, the library property is
    * set to the path the lookup found; in every other case nothing changes. */
  function FixedProperties(properties: map<string, string>, fs: FileSystem): (r: map<string, string>)
    ensures !IsGnuLinux(GetProperty(properties, OsNameProperty)) ==> r == properties
    ensures LibraryPathProperty !in properties ==> r == properties
    ensures forall k :: k in r ==> k in properties || k == SmartcardioLibraryProperty
    ensures forall k :: k in properties ==> k in r
    ensures forall k :: k in properties && k != SmartcardioLibraryProperty ==> r[k] == properties[k]
    ensures r != properties ==>
              && IsGnuLinux(GetProperty(properties, OsNameProperty))
              && NativeLibraryLookup(properties, fs, PcscLibraryName, PcscLibraryVersion).Some?
              && r == properties[SmartcardioLibraryProperty :=
                                 NativeLibraryLookup(properties, fs, PcscLibraryName, PcscLibraryVersion).value]
    ensures r != properties ==> fs.Exists(r[SmartcardioLibraryProperty])
    ensures IsGnuLinux(GetProperty(properties, OsNameProperty))
            && NativeLibraryLookup(properties, fs, PcscLibraryName, PcscLibraryVersion).Some?
            ==> r == properties[SmartcardioLibraryProperty :=
                                NativeLibraryLookup(properties, fs, PcscLibraryName, PcscLibraryVersion).value]
    ensures NativeLibraryLookup(properties, fs, PcscLibraryName, PcscLibraryVersion).None?
            ==> r == properties
  {
    if IsGnuLinux(GetProperty(properties, OsNameProperty)) then
      match NativeLibraryLookup(properties, fs, PcscLibraryName, PcscLibraryVersion)
      case Some(libPcscLite) => properties[SmartcardioLibraryProperty := libPcscLite]
      case None => properties
    else properties
  }

  /** Off GNU/Linux the outcome does not depend on the file system at all: nothing is
    * looked up and nothing is written. */
  lemma FixIsNoOpOffGnuLinux(properties: map<string, string>, fs1: FileSystem, fs2: FileSystem)
    requires !IsGnuLinux(GetProperty(properties, OsNameProperty))
    ensures FixedProperties(properties, fs1) == FixedProperties(properties, fs2) == properties
  {
  }

  /** Running the fix a second time in an unchanged file system changes nothing: the
    * lookup reads neither the property it writes nor anything the write changes. */
  lemma FixIsIdempotent(properties: map<string, string>, fs: FileSystem)
    ensures FixedProperties(FixedProperties(properties, fs), fs) == FixedProperties(properties, fs)
  {
  }

  /** On a dual-multilib host with a 64-bit JRE, a library path lacking the 64-bit
    * multilib directory gets it appended. */
  lemma MultilibAmd64ExtendsSearchPath(properties: map<string, string>, fs: FileSystem)
    requires fs.IsDirectory(UbuntuMultilib32Path) && fs.IsDirectory(UbuntuMultilib64Path)
    requires GetProperty(properties, JreBitnessProperty) == Some(JreBitness64Value)
    requires LibraryPathProperty in properties
    requires !Contains(properties[LibraryPathProperty], UbuntuMultilib64Path)
    ensures LibrarySearchPath(properties, fs)
         == Some(properties[LibraryPathProperty] + ":" + UbuntuMultilib64Path)
  {
  }

  /** On a dual-multilib host with a 64-bit JRE whose library path lacks the 64-bit
    * multilib directory, the library is published from that directory when no field of the
    * original path holds it. */
  lemma MultilibAmd64FindsLibraryInAddedDirectory(properties: map<string, string>, fs: FileSystem)
    requires IsGnuLinux(GetProperty(properties, OsNameProperty))
    requires fs.IsDirectory(UbuntuMultilib32Path) && fs.IsDirectory(UbuntuMultilib64Path)
    requires GetProperty(properties, JreBitnessProperty) == Some(JreBitness64Value)
    requires LibraryPathProperty in properties
    requires !Contains(properties[LibraryPathProperty], UbuntuMultilib64Path)
    requires forall d :: d in Fields(properties[LibraryPathProperty], ':')
               ==> !fs.Exists(FilePath(d, "libpcsclite.so.1"))
    requires fs.Exists(FilePath(UbuntuMultilib64Path, "libpcsclite.so.1"))
    ensures FixedProperties(properties, fs)
         == properties[SmartcardioLibraryProperty := "/lib/x86_64-linux-gnu/libpcsclite.so.1"]
  {
    var original := properties[LibraryPathProperty];
    var fileName := "libpcsclite.so.1";
    var fields := Fields(original, ':');
    FirstMatchIsFirstHit(fields, fileName, fs);
    assert FirstMatch(fields, fileName, fs) == None;
    AddedDirectorySearchedLast(original, UbuntuMultilib64Path, fileName, fs);
    MultilibAmd64ExtendsSearchPath(properties, fs);
    PcscLibraryFileName();
    var found := FilePath(UbuntuMultilib64Path, fileName);
    assert NativeLibraryLookup(properties, fs, PcscLibraryName, PcscLibraryVersion) == Some(found);
    assert found == "/lib/x86_64-linux-gnu/libpcsclite.so.1";
  }

  /** On a host without multilib directories, with java.library.path "/usr/lib" and the
    * library present there, the property is set to /usr/lib/libpcsclite.so.1. */
  lemma PlainLayoutPublishesLibrary(fs: FileSystem)
    requires !fs.IsDirectory(UbuntuMultilib32Path) && !fs.IsDirectory(UbuntuMultilib64Path)
    requires fs.Exists("/usr/lib/libpcsclite.so.1")
    ensures var properties := map[OsNameProperty := "Linux", LibraryPathProperty := "/usr/lib"];
            FixedProperties(properties, fs) == properties[SmartcardioLibraryProperty := "/usr/lib/libpcsclite.so.1"]
  {
    var properties := map[OsNameProperty := "Linux", LibraryPathProperty := "/usr/lib"];
    var fileName := "libpcsclite.so.1";
    var found := FilePath("/usr/lib", fileName);
    assert GetUbuntuBitness(fs) == NA;
    assert LibrarySearchPath(properties, fs) == Some("/usr/lib");
    assert ':' !in "/usr/lib";
    assert FirstMatch(Split("/usr/lib", ':'), fileName, fs) == Some(found) by {
      assert found == "/usr/lib/libpcsclite.so.1";
    }
    PcscLibraryFileName();
    assert NativeLibraryLookup(properties, fs, PcscLibraryName, PcscLibraryVersion) == Some(found);
    assert IsGnuLinux(GetProperty(properties, OsNameProperty));
  }

  /** When no entry of the fixed search path holds the library, no property changes. */
  lemma NotFoundLeavesPropertiesUnchanged(properties: map<string, string>, fs: FileSystem)
    requires LibraryPathProperty in properties
    requires forall d :: d in Split(LibrarySearchPath(properties, fs).value, ':')
               ==> !fs.Exists(FilePath(d, "libpcsclite.so.1"))
    ensures FixedProperties(properties, fs) == properties
  {
    var path := LibrarySearchPath(properties, fs).value;
    var entries := Split(path, ':');
    PcscLibraryFileName();
    FirstMatchIsFirstHit(entries, "libpcsclite.so.1", fs);
    assert forall i :: 0 <= i < |entries| ==> !fs.Exists(FilePath(entries[i], "libpcsclite.so.1"));
  }

  // ---------------------------------------------------------------------------
  // The process: system properties it updates in place, and the file system it reads
  // ---------------------------------------------------------------------------

  class Host {
    /** The JVM's system properties. */
    var properties: map<string, string>
    /** The file system, which the resolver only reads. */
    const fs: FileSystem

    constructor (properties: map<string, string>, fs: FileSystem)
      ensures this.properties == properties && this.fs == fs
    {
      this.properties := properties;
      this.fs := fs;
    }

    /** System.setProperty */
    method SetProperty(key: string, value: string)
      modifies this`properties
      ensures properties == old(properties)[key := value]
    {
      properties := properties[key := value];
    }

    /** findGNULinuxNativeLibrary: read java.library.path, apply the multilib fix, then scan
      * its entries in order for the versioned library file. */
    method FindGNULinuxNativeLibrary(baseName: string, version: int) returns (r: Option<string>)
      ensures r == NativeLibraryLookup(properties, fs, baseName, version)
    {
      var nativeLibraryPaths := GetProperty(properties, LibraryPathProperty);
      if nativeLibraryPaths.None? {
        return None;
      }
      var path := FixPathForUbuntuMultiLib(nativeLibraryPaths.value, GetUbuntuBitness(fs),
                                           GetProperty(properties, JreBitnessProperty));
      var libFileName := MapLibraryName(baseName) + "." + IntToString(version);
      var entries := Split(path, ':');
      for i := 0 to |entries|
        invariant FirstMatch(entries[i..], libFileName, fs) == FirstMatch(entries, libFileName, fs)
      {
        var libraryFile := FilePath(entries[i], libFileName);
        if fs.Exists(libraryFile) {
          return Some(libraryFile);
        }
        assert entries[i..][1..] == entries[i + 1..];
      }
      return None;
    }

    /** fixNativeLibrary: on GNU/Linux, publish the found library's path in
      * sun.security.smartcardio.library; otherwise, or when nothing is found, leave every
      * property as it was. */
    method FixNativeLibrary()
      modifies this`properties
      ensures properties == FixedProperties(old(properties), fs)
    {
      var osName := GetProperty(properties, OsNameProperty);
      if osName.Some? && StartsWith(osName.value, GnuLinuxOsPropertyPrefix) {
        var libPcscLite := FindGNULinuxNativeLibrary(PcscLibraryName, PcscLibraryVersion);
        if libPcscLite.Some? {
          SetProperty(SmartcardioLibraryProperty, libPcscLite.value);
        }
      }
    }
  }
}
