/**
  The argument handling of `Ice::createProperties(int&, char*[], ...)` and
  `Ice::initialize(int&, char*[], ...)` (cpp/src/Ice/Initialize.cpp): the
  version check comes first, then `argv` is copied into a `StringSeq`, the
  property parser removes the options it consumes from that sequence, and
  `argv` is stripped down to what is left.
 */
module IceInitialize {
  import opened ArgvSpec
  import opened IceArgs
  import opened IceVersion

  /**
    `createProperties(argc, argv, defaults)`. The `PropertiesI` constructor
    is the parameter `parse`: it maps the arguments to those it leaves
    unconsumed. The returned count and slots are those of stripping the
    original slots against `parse` of their texts.
   */
  method CreateProperties(argc: int, argv: array?<CString>, parse: seq<string> -> seq<string>)
    returns (newArgc: int)
    requires WellFormed(argc, argv)
    modifies argv
    ensures var left := parse(Texts(old(Slots(argv)), ArgCount(argc)));
      && newArgc == (if argc < 0 then argc else |Survivors(old(Slots(argv)), argc, left)|)
      && Slots(argv) == StrippedSlots(old(Slots(argv)), ArgCount(argc), left)
  {
    ghost var orig := Slots(argv);
    var args := ArgsToStringSeq(argc, argv);
    assert args == Texts(orig, ArgCount(argc));
    args := parse(args);
    newArgc := StringSeqToArgs(args, argc, argv);
  }

  /**
    `initialize(argc, argv, initData, version)` up to the point where the
    communicator takes over: a version mismatch is reported before `argv`
    is touched; otherwise `argv` is what `createProperties` leaves.
   */
  method Initialize(argc: int, argv: array?<CString>, library: int, version: int, ignoreVersion: bool,
                    parse: seq<string> -> seq<string>)
    returns (outcome: Outcome, newArgc: int)
    requires WellFormed(argc, argv)
    modifies argv
    ensures outcome == CheckIceVersion(library, version, ignoreVersion)
    ensures outcome == VersionMismatch ==> newArgc == argc && Slots(argv) == old(Slots(argv))
    ensures outcome == Accepted ==>
      var left := parse(Texts(old(Slots(argv)), ArgCount(argc)));
      && newArgc == (if argc < 0 then argc else |Survivors(old(Slots(argv)), argc, left)|)
      && Slots(argv) == StrippedSlots(old(Slots(argv)), ArgCount(argc), left)
  {
    outcome := CheckIceVersion(library, version, ignoreVersion);
    if outcome == VersionMismatch {
      newArgc := argc;
      return;
    }
    newArgc := CreateProperties(argc, argv, parse);
  }
}
