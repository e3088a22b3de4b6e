/**
  The command-line plumbing of Ice's communicator initialisation: a C
  `argv` array, the `StringSeq` the property parser works on, and the two
  conversions between them (cpp/src/Ice/Initialize.cpp).
 */
module IceArgs {
  import opened ArgvSpec

  /** The slots of an `argv` array, as a sequence; a null `argv` has none. */
  ghost function Slots(argv: array?<CString>): seq<CString>
    reads argv
  {
    if argv == null then [] else argv[..]
  }

  /**
    What the source needs of its callers: `argv` has at least `argc` slots
    (a null `argv` goes with a count of at most zero) and the first `argc`
    of them hold texts, since C++ compares and copies them as strings,
    each ending at its first NUL character.
   */
  ghost predicate WellFormed(argc: int, argv: array?<CString>)
    reads argv
  {
    && ArgCount(argc) <= |Slots(argv)|
    && forall i :: 0 <= i < ArgCount(argc) ==> Slots(argv)[i].Chars? && '\0' !in Slots(argv)[i].text
  }

  /**
    `Ice::argsToStringSeq` (the `char*` variant): copies `argv[0..argc)`
    into a fresh sequence, one `push_back` at a time.
   */
  method ArgsToStringSeq(argc: int, argv: array?<CString>) returns (result: seq<string>)
    requires WellFormed(argc, argv)
    ensures |result| == ArgCount(argc)
    ensures forall i :: 0 <= i < |result| ==> Slots(argv)[i] == Chars(result[i])
  {
    result := [];
    var i := 0;
    while i < argc
      invariant 0 <= i <= ArgCount(argc)
      invariant |result| == i
      invariant forall k :: 0 <= k < i ==> Slots(argv)[k] == Chars(result[k])
    {
      result := result + [argv[i].text];
      i := i + 1;
    }
  }

  /**
    `Ice::stringSeqToArgs`: compacts `argv` in place so that its first
    `argc` slots are the entries that occur in `args`, in their original
    order, and returns the new `argc`. The terminator `argv[argc]` is
    written only when some entry was removed: the array may end right
    after the original `argc` slots.
   */
  method StringSeqToArgs(args: seq<string>, argc: int, argv: array?<CString>) returns (newArgc: int)
    requires WellFormed(argc, argv)
    modifies argv
    ensures newArgc == if argc < 0 then argc else |Survivors(old(Slots(argv)), argc, args)|
    ensures Slots(argv) == StrippedSlots(old(Slots(argv)), ArgCount(argc), args)
  {
    newArgc := argc;
    if argc <= 0 || argv == null {
      assert StrippedSlots(Slots(argv), ArgCount(argc), args) == Slots(argv);
      return;
    }
    newArgc := RemoveAbsent(args, argc, argv);
    if argc != newArgc {
      argv[newArgc] := Null;
    }
  }

  /**
    The removal loop of `stringSeqToArgs`: every entry of `argv[0..argc)`
    missing from `args` is removed by shifting the ones after it down. The
    slots between the new and the old `argc` keep stale copies; the caller
    writes the terminator.
   */
  method RemoveAbsent(args: seq<string>, argc: nat, argv: array<CString>) returns (newArgc: nat)
    requires argc <= argv.Length
    requires forall i :: 0 <= i < argc ==> argv[i].Chars?
    modifies argv
    ensures newArgc == |Survivors(old(argv[..]), argc, args)| <= argc
    ensures (if newArgc < argc then argv[..][newArgc := Null] else argv[..])
         == StrippedSlots(old(argv[..]), argc, args)
  {
    ghost var orig := argv[..];
    newArgc := argc;
    var i := 0;
    ScanStart(orig, args, argc);
    while i < newArgc
      invariant Scanning(argv[..], orig, args, argc, i, newArgc)
      decreases newArgc - i
    {
      ScanAt(argv[..], orig, args, argc, i, newArgc);
      if argv[i].text !in args {
        ghost var cur, n := argv[..], newArgc;
        ShiftDown(argv, i, newArgc);
        newArgc := newArgc - 1;
        DropStep(cur, orig, args, argc, i, n, newArgc);
      } else {
        KeepStep(argv[..], orig, args, argc, i, newArgc);
        i := i + 1;
      }
    }
    ScanDone(argv[..], orig, args, argc, newArgc);
  }

  /** The inner loop of `stringSeqToArgs`: `argv[j] = argv[j + 1]` for `i <= j < n - 1`. */
  method ShiftDown(argv: array<CString>, i: nat, n: nat)
    requires i < n <= argv.Length
    modifies argv
    ensures argv[..] == Shifted(old(argv[..]), i, n)
  {
    for j := i to n - 1
      invariant forall p :: i <= p < j ==> argv[p] == old(argv[p + 1])
      invariant forall p :: (0 <= p < i || j <= p < argv.Length) ==> argv[p] == old(argv[p])
    {
      argv[j] := argv[j + 1];
    }
  }

  /**
    The round trip inside `createProperties(int&, char*[], ...)` when the
    property parser consumes no option: copying `argv` into a `StringSeq`
    and stripping `argv` against that copy leaves `argc` and every slot as
    they were.
   */
  method ArgsRoundTrip(argc: int, argv: array?<CString>) returns (newArgc: int)
    requires WellFormed(argc, argv)
    modifies argv
    ensures newArgc == argc
    ensures Slots(argv) == old(Slots(argv))
  {
    ghost var orig := Slots(argv);
    var args := ArgsToStringSeq(argc, argv);
    assert args == Texts(orig, ArgCount(argc));
    TextsRoundTrip(orig, ArgCount(argc));
    newArgc := StringSeqToArgs(args, argc, argv);
  }
}
