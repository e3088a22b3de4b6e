# Ice communicator initialisation: argv handling and version check

This project models the core of `cpp/src/Ice/Initialize.cpp` from ZeroC
Ice in Dafny. That file is the C++ entry point that turns a program's
command line into communicator properties and checks that the caller was
built against a compatible Ice version.

- **`argv` plumbing.** A C `argv` is an array of `char*` slots (`CString`:
  `Null` or `Chars(text)`), with `argc` an `int`.
  - `argsToStringSeq` copies the first `argc` slots into a `StringSeq`.
  - `stringSeqToArgs` compacts `argv` in place. It keeps only the entries
    that still occur in a `StringSeq`, in their original order. It lowers
    `argc` and writes a null terminator, but only when something was
    removed.
  - `createProperties(int&, char*[], ...)` chains the two around the
    property parser. The parser removes the options it consumes.
  - `argv` is an `array?<CString>`. It may end right after the original
    `argc` slots, so the proof also shows the terminator write stays in
    bounds.
  - The observable result of stripping is a function of the original
    slots, `StrippedSlots`:
    - the survivors first;
    - then, only if some entry was removed, a null followed by the stale
      copies of the original last entry that the shifting leaves behind;
    - then the untouched slots beyond the original `argc`.
- **Version check.** `checkIceVersion` compares the caller's version
  against the library's own `ICE_INT_VERSION`. Versions are encoded as
  `AABBPP`, and a patch level above 50 marks a beta.
  - A beta library accepts only itself.
  - A release library accepts non-beta callers of the same major and minor
    version whose patch level is not above its own.
  - `ICE_INT_VERSION` and the `ICE_IGNORE_VERSION` build flag are
    parameters.
  - C++ integer `/` and `%` truncate toward zero. `Quot100` and `Rem100`
    model that for negative versions too.
- **`makePair`.** This helper gives the stream factories the
  `[begin, end)` pointer pair of a byte vector. Both pointers are null for
  an empty vector. Pointers are modelled as offsets into the vector.

Modules:
- `ArgvSpec` (argv_spec.dfy): specification functions and lemmas.
- `IceArgs` (args.dfy): the imperative `argv` methods.
- `IceVersion` (version.dfy).
- `ByteSpan` (byte_span.dfy).
- `IceInitialize` (initialize.dfy): `createProperties` and `initialize`.

## Model

| member | source | states |
|---|---|---|
| IceArgs.ArgsToStringSeq | cpp/src/Ice/Initialize.cpp:45-54 | the result has `argc` entries (none for a negative `argc`), and entry `i` is the text in `argv[i]` |
| IceArgs.StringSeqToArgs | cpp/src/Ice/Initialize.cpp:76-111 | the new `argc` is the number of leading entries that occur in `args` (unchanged when `argc` is negative); the new slots are `StrippedSlots` of the old ones, so the terminator is written only when `argc` shrank, and never past the array |
| IceArgs.RemoveAbsent | cpp/src/Ice/Initialize.cpp:84-100 | the removal loop leaves as many entries as survive, at most the old `argc`; together with a null at the new `argc`, when that is smaller, it gives `StrippedSlots` |
| IceArgs.ShiftDown | cpp/src/Ice/Initialize.cpp:90-93 | one run of the inner loop moves slots `i+1..n` down by one, leaves slot `n-1` as it was and changes nothing else |
| ArgvSpec.Kept | cpp/src/Ice/Initialize.cpp:88 | the `find` test: an entry survives exactly when it is a text equal to some element of `args` |
| ArgvSpec.Shifted | cpp/src/Ice/Initialize.cpp:90-93 | the slots after one run of the inner loop: the same length, slot `p` takes slot `p+1` for `i <= p < n-1`, and every other slot (slot `n-1` included) keeps its entry |
| ArgvSpec.StrippedSlots | cpp/src/Ice/Initialize.cpp:84-110 | the final `argv` as the code leaves it: survivors, then (only if something was removed) a null and the stale copies of the original last entry left by the shifting, then the untouched rest; the length is unchanged and no slot from the original `argc` on differs |
| ArgvSpec.Survivors | cpp/src/Ice/Initialize.cpp:84-100 | the surviving entries number at most `argc`, and every one of them is a text that occurs in `args` |
| ArgvSpec.SurvivorsArePositions | cpp/src/Ice/Initialize.cpp:84-100 | the survivors are exactly the entries that occur in `args`, taken at strictly increasing original positions, so they keep their order |
| ArgvSpec.SurvivorsAllKept | cpp/src/Ice/Initialize.cpp:84-100 | when every entry occurs in `args`, the survivors are the first `argc` slots unchanged |
| ArgvSpec.SurvivorsDropRemoved | cpp/src/Ice/Initialize.cpp:88-95 | when some entry does not occur in `args`, the new `argc` is strictly smaller than the old one |
| ArgvSpec.SurvivorsIdentityIff | cpp/src/Ice/Initialize.cpp:84-100 | the survivors equal the first `argc` slots if and only if every one of them occurs in `args` |
| ArgvSpec.KeepStep | cpp/src/Ice/Initialize.cpp:96-99 | a step that keeps `argv[i]` preserves the loop invariant with `i` one higher |
| ArgvSpec.DropStep | cpp/src/Ice/Initialize.cpp:88-95 | a step that shifts out `argv[i]` and decrements `argc` preserves the loop invariant |
| ArgvSpec.ScanDone | cpp/src/Ice/Initialize.cpp:102-110 | when the loop ends, `argc` is the number of survivors, and writing the terminator exactly when `argc` changed gives `StrippedSlots` |
| ArgvSpec.StrippedShape | cpp/src/Ice/Initialize.cpp:76-111 | after stripping, the array length is unchanged and the survivors lead; if something was removed, `argv[argc]` is null and the stale slots hold the original last entry; no slot from the original `argc` on is changed |
| ArgvSpec.StripNothing | cpp/src/Ice/Initialize.cpp:102-110 | when every entry occurs in `args`, `argc` and every slot are unchanged, so `argv[argc]` is not written |
| ArgvSpec.StripUnchangedIff | cpp/src/Ice/Initialize.cpp:76-111 | for slots that hold texts, stripping leaves `argv` unchanged if and only if every entry occurs in `args` |
| ArgvSpec.Texts | cpp/src/Ice/Initialize.cpp:45-54 | the `StringSeq` of the first `argc` slots has `argc` entries, and entry `i` is the text in slot `i` |
| ArgvSpec.TextsRoundTrip | cpp/src/Ice/Initialize.cpp:125-132 | stripping `argv` against its own `StringSeq` (no option consumed) keeps `argc` and every slot |
| IceArgs.ArgsRoundTrip | cpp/src/Ice/Initialize.cpp:128-130 | `stringSeqToArgs` applied to the result of `argsToStringSeq` on the same `argc` and `argv` returns the same `argc` and leaves every slot of `argv` as it was |
| IceInitialize.CreateProperties | cpp/src/Ice/Initialize.cpp:125-132 | the new `argc` and slots are those of stripping the original slots against what the parser leaves of their texts |
| IceInitialize.Initialize | cpp/src/Ice/Initialize.cpp:203-209 | the outcome is the version check's; on a mismatch `argc` and `argv` are untouched; otherwise they are as `createProperties` leaves them |
| IceVersion.Quot100 | cpp/src/Ice/Initialize.cpp:175 | the quotient by 100 truncates toward zero: the remainder is less than 100 in magnitude and has the sign of the dividend |
| IceVersion.Rem100 | cpp/src/Ice/Initialize.cpp:183 | the remainder by 100 completes the truncating quotient and lies strictly between -100 and 100 |
| IceVersion.IsBeta | cpp/src/Ice/Initialize.cpp:162-183 | the `% 100 > 50` test: a version is a beta exactly when it is non-negative and its last two decimal digits exceed 50 (a negative version never is, under truncating `%`) |
| IceVersion.CheckIceVersion | cpp/src/Ice/Initialize.cpp:158-199 | with `ICE_IGNORE_VERSION` every caller is accepted; a beta library accepts a caller if and only if its version is the library's own |
| IceVersion.OwnVersionAccepted | cpp/src/Ice/Initialize.cpp:158-199 | every library accepts a caller built against its own version |
| IceVersion.BetaCallerRejected | cpp/src/Ice/Initialize.cpp:180-186 | a release library rejects every beta caller |
| IceVersion.ReleaseAcceptsByComponents | cpp/src/Ice/Initialize.cpp:172-195 | a release library `a.b.c` accepts a caller `a'.b'.p` if and only if `a' = a`, `b' = b` and `p <= c` |
| IceVersion.ReleaseAcceptsInterval | cpp/src/Ice/Initialize.cpp:172-195 | a release library of version at least 1.0.0 accepts exactly the callers from its own `a.b.0` up to itself |
| IceVersion.PatchUpgradeKeepsCallers | cpp/src/Ice/Initialize.cpp:188-195 | upgrading a release library to a later patch of the same minor version rejects no caller it accepted before |
| ByteSpan.MakePair | cpp/src/Ice/Initialize.cpp:30-41 | both pointers are null exactly when the vector is empty; otherwise they are the first byte and one past the last |
| ByteSpan.MakePairCoversVector | cpp/src/Ice/Initialize.cpp:30-41 | the pair covers exactly the bytes of the vector |

## Left out

- `argsToStringSeq(int, wchar_t*[])` (lines 58-72). This Windows-only variant converts wide strings through the process string converter. Character conversion is not modelled.
- The `PropertiesI` constructor. The model replaces it with an arbitrary function `parse` from the arguments to those left unconsumed. The options it recognises and the properties it builds are not part of this model. Neither is the merging of `defaults`.
- `IceInitialize.Initialize`: the model stops where the communicator takes over. `CommunicatorI` and `finishSetup` (lines 211-214) are not part of this model. Neither is any change they make to `argc` and `argv`.
- `initialize(StringSeq&, ...)` (lines 217-225). It builds an `argv` with `ArgVector`, which is not part of this model, calls `initialize(int&, char*[], ...)` (line 222), modelled as `IceInitialize.Initialize`, and so reaches `checkIceVersion` and `finishSetup` only through it; it then converts back with `argsToStringSeq` (line 223), modelled as `IceArgs.ArgsToStringSeq`.
- `initialize(const InitializationData&, ...)` (lines 227-242). It runs `checkIceVersion` (modelled as `IceVersion.CheckIceVersion`) and then `finishSetup` on an empty `argv`; `finishSetup` is not part of this model.
- `createProperties()` and `createProperties(StringSeq&, ...)` (lines 113-123). They only construct a `PropertiesI`.
- `ThreadHookPlugin`, `getInstance`, `getInstanceTimer` and the C++11 dispatcher (lines 134-153, 354-394). These are object wiring with no logic of their own.
- The stream factories (lines 244-304). Their one computation, `makePair`, is modelled as `ByteSpan.MakePair`. The streams themselves are not part of this model.
- The process logger and its mutex (lines 306-352). This is shared mutable state under a lock. Concurrency is not modelled.
- `IceArgs.StringSeqToArgs`, `IceArgs.ArgsToStringSeq`: a slot among the first `argc` must hold a text without a NUL character (a C string ends at its first NUL), and a null `argv` must come with `argc <= 0`. The C++ code would dereference a null pointer in both cases. `argc` and versions are unbounded integers. No value of a 32-bit `int` behaves differently.
- `vsplugin/src/IceCsharpConfigurationDialog.Designer.cs`: generated Windows Forms layout code with no logic to model.
