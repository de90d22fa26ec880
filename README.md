# pcsclite resolver for GNU/Linux, modelled in Dafny

The model covers `LibJ2PCSCGNULinuxFix` from commons-eid-client. It is the workaround for JREs whose
`libj2pcsc.so` opens `libpcsclite.so` rather than the versioned `libpcsclite.so.1`. The workaround
finds `libpcsclite.so.1` and publishes its absolute path in the system property
`sun.security.smartcardio.library`. It runs as a linear pipeline:

1. Platform gate: the fix applies only when `os.name` is set and starts with `Linux`.
2. Distribution classifier: two `isDirectory` checks (`/lib/i386-linux-gnu`,
   `/lib/x86_64-linux-gnu`) give `NA`, `PURE32`, `PURE64` or `MULTILIB`.
3. Search-path augmenter: the matching multilib directory is appended to `java.library.path`,
   unless it already occurs in the path as a substring. On a `MULTILIB` host, `os.arch`
   (`i386` or `amd64`) decides which directory to append.
4. Library scanner: the path is split on `:`. The scan returns the first entry `dir` for which
   `dir/libpcsclite.so.1` exists.
5. Publisher: the found path is written to `sun.security.smartcardio.library`. When nothing is
   found, nothing is written.

Files:

- `wrappers.dfy`: `Option`. `None` stands for Java's `null`.
- `java_string.dfy` (module `JavaString`): the `java.lang.String` behaviour the resolver relies on.
  This is `startsWith`, `contains` (proved equal to "there is an occurrence"), `split` on one
  separator character, and the decimal text of an `int`. `split` follows Java exactly: a string
  without the separator is returned whole, so `""` gives `[""]`. Otherwise trailing empty fields are
  dropped, and leading and interior ones are kept.
- `pcsc_linux_fix.dfy` (module `LibJ2PCSCGNULinuxFix`): the constants, the `UbuntuBitness`
  enumeration, and the pure steps as functions. It also holds the specification functions
  `NativeLibraryLookup` (what `findGNULinuxNativeLibrary` returns) and `FixedProperties` (the
  property map after `fixNativeLibrary`). The class `Host` holds the mutable system-property map
  and the read-only file system. Its method `FindGNULinuxNativeLibrary` runs the scan loop with an
  early return. Its method `FixNativeLibrary` writes the property through `SetProperty`. Both are
  proved against the specification functions.

The environment is explicit. System properties are a `map<string, string>`, and a key that is not
in the map reads as `null`. The file system is a `FileSystem` value made of a set of directories
and a set of files. `File.isDirectory` is membership in the directory set. `File.exists` is
membership in either set. `new File(dir, name)` is the string `dir + "/" + name`; for an empty
`dir` that is `/name`, as in Java. The pure functions `GetUbuntuBitness` and
`FixPathForUbuntuMultiLib` take the file system, the classification and `os.arch` as parameters.
In the source they read these from the environment.

Two behaviours of the code, both kept as written:

- The substring guard of `extendLibraryPath` also matches a longer directory. A path holding only
  `/usr/lib/x86_64-linux-gnu` is not extended with `/lib/x86_64-linux-gnu`
  (`SubstringGuardMatchesNestedDirectory`).
- An empty `java.library.path` is not a guaranteed miss. The split yields one empty entry, and
  the file is then looked for at `/libpcsclite.so.1` (`EmptyPathScansRoot`).

## Model

| member | source | states |
|---|---|---|
| `LibJ2PCSCGNULinuxFix.UbuntuBitnessOf` | commons-eid-client/src/main/java/be/fedict/commons/eid/client/impl/LibJ2PCSCGNULinuxFix.java:96-104 | Truth table, each line as an if-and-only-if: PURE32 exactly for (32 only), PURE64 for (64 only), MULTILIB for (both), NA for (neither) |
| `LibJ2PCSCGNULinuxFix.UbuntuBitnessRoundTrip` | commons-eid-client/src/main/java/be/fedict/commons/eid/client/impl/LibJ2PCSCGNULinuxFix.java:89-105 | The two directory checks can be read back from the classification, and each variant comes from exactly one pair of checks |
| `LibJ2PCSCGNULinuxFix.GetUbuntuBitness` | commons-eid-client/src/main/java/be/fedict/commons/eid/client/impl/LibJ2PCSCGNULinuxFix.java:89-95 | The classification records the 32-bit (64-bit) layout iff `/lib/i386-linux-gnu` (`/lib/x86_64-linux-gnu`) is a directory |
| `LibJ2PCSCGNULinuxFix.ExtendLibraryPath` | commons-eid-client/src/main/java/be/fedict/commons/eid/client/impl/LibJ2PCSCGNULinuxFix.java:111-117 | The old path is a prefix of the result, and the result always contains the extension. The path is unchanged when it already contains the extension; otherwise the result is `path + ":" + extension` |
| `LibJ2PCSCGNULinuxFix.ExtendLibraryPathIdempotent` | commons-eid-client/src/main/java/be/fedict/commons/eid/client/impl/LibJ2PCSCGNULinuxFix.java:111-117 | Extending twice with the same directory equals extending once |
| `LibJ2PCSCGNULinuxFix.SubstringGuardMatchesNestedDirectory` | commons-eid-client/src/main/java/be/fedict/commons/eid/client/impl/LibJ2PCSCGNULinuxFix.java:113-114 | `/usr/lib/x86_64-linux-gnu` already counts as containing `/lib/x86_64-linux-gnu`, so nothing is appended |
| `LibJ2PCSCGNULinuxFix.FixPathForUbuntuMultiLib` | commons-eid-client/src/main/java/be/fedict/commons/eid/client/impl/LibJ2PCSCGNULinuxFix.java:124-177 | Only ever appends: the result is the path, or the path plus `":"` plus one multilib directory. NA leaves it unchanged. PURE32 and MULTILIB with `i386` extend with the 32-bit directory; PURE64 and MULTILIB with `amd64` with the 64-bit one. MULTILIB with `os.arch` null or any other value leaves it unchanged |
| `LibJ2PCSCGNULinuxFix.FixPathIdempotent` | commons-eid-client/src/main/java/be/fedict/commons/eid/client/impl/LibJ2PCSCGNULinuxFix.java:124-177 | Applying the multilib fix to its own output changes nothing |
| `LibJ2PCSCGNULinuxFix.MultilibAmd64ExtendsSearchPath` | commons-eid-client/src/main/java/be/fedict/commons/eid/client/impl/LibJ2PCSCGNULinuxFix.java:143-167 | On a dual-multilib host with `os.arch` `amd64`, a path lacking the 64-bit directory becomes `path + ":/lib/x86_64-linux-gnu"` |
| `LibJ2PCSCGNULinuxFix.PcscLibraryFileName` | commons-eid-client/src/main/java/be/fedict/commons/eid/client/impl/LibJ2PCSCGNULinuxFix.java:206-207 | With library name `pcsclite` and version 1, the scanned file name is `libpcsclite.so.1` |
| `LibJ2PCSCGNULinuxFix.LibraryFileNameVersion` | commons-eid-client/src/main/java/be/fedict/commons/eid/client/impl/LibJ2PCSCGNULinuxFix.java:206-207 | The file name is the mapped library name, a dot, and decimal digits that read back as the version |
| `JavaString.NatToStringRoundTrip` | commons-eid-client/src/main/java/be/fedict/commons/eid/client/impl/LibJ2PCSCGNULinuxFix.java:206-207 | The decimal text of the version reads back as the version |
| `JavaString.NatToString` | commons-eid-client/src/main/java/be/fedict/commons/eid/client/impl/LibJ2PCSCGNULinuxFix.java:206-207 | The decimal text is non-empty, all digits, and has no leading zero unless the number is 0 |
| `JavaString.ContainsIff` | commons-eid-client/src/main/java/be/fedict/commons/eid/client/impl/LibJ2PCSCGNULinuxFix.java:113 | `String.contains` holds iff the substring occurs at some index |
| `JavaString.ContainsAppended` | commons-eid-client/src/main/java/be/fedict/commons/eid/client/impl/LibJ2PCSCGNULinuxFix.java:116 | Whatever is appended to a string occurs in the result, so the extended path contains the extension |
| `JavaString.Split` | commons-eid-client/src/main/java/be/fedict/commons/eid/client/impl/LibJ2PCSCGNULinuxFix.java:211 | `split(":")`: a string without `:` gives itself, including `""`. Otherwise the result is a prefix of the fields with no trailing empty field, and every dropped field is empty. No entry contains `:` |
| `JavaString.JoinFields` | commons-eid-client/src/main/java/be/fedict/commons/eid/client/impl/LibJ2PCSCGNULinuxFix.java:211 | Joining the fields with the separator gives back the path |
| `JavaString.FieldsJoin` | commons-eid-client/src/main/java/be/fedict/commons/eid/client/impl/LibJ2PCSCGNULinuxFix.java:211 | Splitting a join of separator-free fields gives back those fields |
| `JavaString.SplitAfterAppend` | commons-eid-client/src/main/java/be/fedict/commons/eid/client/impl/LibJ2PCSCGNULinuxFix.java:211 | Splitting `path + ":" + dir` gives every field of `path`, trailing empty ones included, followed by `dir` |
| `LibJ2PCSCGNULinuxFix.FirstMatchIsFirstHit` | commons-eid-client/src/main/java/be/fedict/commons/eid/client/impl/LibJ2PCSCGNULinuxFix.java:211-222 | A hit is `dir/fileName` for an entry that has the file when no earlier entry has it. A miss happens iff no entry has the file |
| `LibJ2PCSCGNULinuxFix.FirstMatchAppend` | commons-eid-client/src/main/java/be/fedict/commons/eid/client/impl/LibJ2PCSCGNULinuxFix.java:211-219 | A directory appended to the entries is consulted only when no earlier entry has the file |
| `LibJ2PCSCGNULinuxFix.ScanPrefersEarlierEntry` | commons-eid-client/src/main/java/be/fedict/commons/eid/client/impl/LibJ2PCSCGNULinuxFix.java:211-218 | With the file in both `/a` and `/b`, the path `/a:/b` resolves to the copy in `/a` |
| `LibJ2PCSCGNULinuxFix.EmptyPathScansRoot` | commons-eid-client/src/main/java/be/fedict/commons/eid/client/impl/LibJ2PCSCGNULinuxFix.java:211-214 | An empty path is scanned as the single entry `""`, whose file is `/fileName` |
| `LibJ2PCSCGNULinuxFix.LibrarySearchPath` | commons-eid-client/src/main/java/be/fedict/commons/eid/client/impl/LibJ2PCSCGNULinuxFix.java:189-198 | The search path is null iff `java.library.path` is unset. Otherwise it starts with the original path |
| `LibJ2PCSCGNULinuxFix.NativeLibraryLookup` | commons-eid-client/src/main/java/be/fedict/commons/eid/client/impl/LibJ2PCSCGNULinuxFix.java:186-223 | Null when `java.library.path` is unset. A returned path exists and is `dir/libFileName` for the first entry of the split fixed path that has the file. A null result with the path set means no entry has it |
| `LibJ2PCSCGNULinuxFix.AddedDirectorySearchedLast` | commons-eid-client/src/main/java/be/fedict/commons/eid/client/impl/LibJ2PCSCGNULinuxFix.java:197-219 | When the fix appends a directory, the scan checks every field of the original path first and the added directory last |
| `LibJ2PCSCGNULinuxFix.Host.FindGNULinuxNativeLibrary` | commons-eid-client/src/main/java/be/fedict/commons/eid/client/impl/LibJ2PCSCGNULinuxFix.java:186-223 | The loop with early return computes exactly `NativeLibraryLookup` for the host's current properties and file system |
| `LibJ2PCSCGNULinuxFix.FixedProperties` | commons-eid-client/src/main/java/be/fedict/commons/eid/client/impl/LibJ2PCSCGNULinuxFix.java:62-79 | On GNU/Linux with a non-null lookup `p`, the result is the old map with `sun.security.smartcardio.library` set to `p`. When the lookup is null the map is unchanged. Nothing changes off GNU/Linux or when `java.library.path` is unset. No key other than `sun.security.smartcardio.library` changes or appears, and no key is removed. When anything changes, the gate passed and the property holds the lookup's existing file |
| `LibJ2PCSCGNULinuxFix.FixIsNoOpOffGnuLinux` | commons-eid-client/src/main/java/be/fedict/commons/eid/client/impl/LibJ2PCSCGNULinuxFix.java:63-78 | With `os.name` null or not starting with `Linux`, the properties are unchanged whatever the file system holds |
| `LibJ2PCSCGNULinuxFix.NotFoundLeavesPropertiesUnchanged` | commons-eid-client/src/main/java/be/fedict/commons/eid/client/impl/LibJ2PCSCGNULinuxFix.java:69-74 | When no entry of the fixed search path holds `libpcsclite.so.1`, every property keeps its value |
| `LibJ2PCSCGNULinuxFix.FixIsIdempotent` | commons-eid-client/src/main/java/be/fedict/commons/eid/client/impl/LibJ2PCSCGNULinuxFix.java:62-79 | Running the fix twice in an unchanged file system gives the same properties as running it once |
| `LibJ2PCSCGNULinuxFix.PlainLayoutPublishesLibrary` | commons-eid-client/src/main/java/be/fedict/commons/eid/client/impl/LibJ2PCSCGNULinuxFix.java:62-74 | Case: `Linux`, no multilib directories, path `/usr/lib` and the file present there. The property is set to `/usr/lib/libpcsclite.so.1` |
| `LibJ2PCSCGNULinuxFix.MultilibAmd64FindsLibraryInAddedDirectory` | commons-eid-client/src/main/java/be/fedict/commons/eid/client/impl/LibJ2PCSCGNULinuxFix.java:143-167 | Case: dual multilib, `amd64`, the file only in the added 64-bit directory. The property is set to `/lib/x86_64-linux-gnu/libpcsclite.so.1` |
| `LibJ2PCSCGNULinuxFix.Host.SetProperty` | commons-eid-client/src/main/java/be/fedict/commons/eid/client/impl/LibJ2PCSCGNULinuxFix.java:72-73 | `System.setProperty` updates that one key of the property map |
| `LibJ2PCSCGNULinuxFix.Host.FixNativeLibrary` | commons-eid-client/src/main/java/be/fedict/commons/eid/client/impl/LibJ2PCSCGNULinuxFix.java:62-79 | The new property map is `FixedProperties` of the old one. The library property is written at most once, and only with a found path |

## Left out

- Logging: every `logger.debug` call and the `VoidLogger` default (the no-argument `fixNativeLibrary`). They never affect control flow.
- `BeIDKeyStoreParameter` (commons-eid-jca) is not part of this model. It is a getter/setter bean with no behaviour to state.
- `System.mapLibraryName` is a platform call. It is fixed to the GNU/Linux convention `"lib" + name + ".so"`.
- `java.io.File` path handling is reduced to `dir + "/" + name`. Slash normalisation (a trailing `/` on a path entry, doubled slashes) is not modelled. For an entry such as `/usr/lib/`, Java tests `/usr/lib/libpcsclite.so.1`, while the model tests `/usr/lib//libpcsclite.so.1`. So for entries that end in `/` or contain `//`, the model can miss a file Java finds. It can then pick a later entry or none, and the published string differs as well.
- `getAbsolutePath` resolving a relative entry against the working directory is not modelled either. For such entries the published string is the relative one.
- File-system permissions and `SecurityException` are not modelled. The code does not handle them.
- The process-wide property write is modelled as a single-threaded update of the host's map. Concurrent callers are not modelled; the code does no synchronisation.
- `getUbuntuBitness`'s `multilibdir != null` tests are always true in Java, so they are not modelled.
