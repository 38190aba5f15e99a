/** Flag dispatch at the end of `Actions.analyze` in js/idealforms.js: the
    flag list of a field and the calls made for it. */
module FlagDispatch {
  import opened Text
  import opened Config

  /** The flags `analyze` runs for a field: the field's own flags string with
      the global flags string appended when it is non-empty, split on
      whitespace. The two strings are joined without a separator. */
  function FlagList(fieldFlags: string, globalFlags: string): (r: seq<string>)
    ensures |r| == SpaceCount(fieldFlags) + SpaceCount(globalFlags) + 1
    ensures forall k :: 0 <= k < |r| ==> NoSpace(r[k])
  {
    var f := if globalFlags != "" then fieldFlags + globalFlags else fieldFlags;
    SpaceCountAppend(fieldFlags, globalFlags);
    assert fieldFlags + "" == fieldFlags;
    SplitCount(f);
    SplitPiecesHaveNoSpace(f);
    Split(f)
  }

  /** The flag list is the split of the field's flags and the split of the
      global flags with the last field flag and the first global flag
      glued into one name. */
  lemma FlagListGlue(fieldFlags: string, globalFlags: string)
    ensures FlagList(fieldFlags, globalFlags) == Glue(Split(fieldFlags), Split(globalFlags))
  {
    if globalFlags == "" {
      var p := Split(fieldFlags);
      assert FlagList(fieldFlags, globalFlags) == p;
      assert Split(globalFlags) == [""];
      assert p[|p| - 1] + "" == p[|p| - 1];
      assert p[..|p| - 1] + [p[|p| - 1]] == p;
    } else {
      assert FlagList(fieldFlags, globalFlags) == Split(fieldFlags + globalFlags);
      SplitAppend(fieldFlags, globalFlags);
    }
  }

  /** When the field's flags end with a whitespace character, the glued name
      is the first global flag itself, so the list is the field's flags
      followed by the global flags. */
  lemma FlagListSeparated(fieldFlags: string, globalFlags: string)
    requires |fieldFlags| > 0 && IsSpace(fieldFlags[|fieldFlags| - 1])
    ensures var p := Split(fieldFlags);
      FlagList(fieldFlags, globalFlags) == p[..|p| - 1] + Split(globalFlags)
  {
    FlagListGlue(fieldFlags, globalFlags);
    SplitEndingInSpace(fieldFlags);
    GlueAfterEmptyPiece(Split(fieldFlags), Split(globalFlags));
  }

  /** A string that ends with a separator splits with an empty last piece. */
  lemma SplitEndingInSpace(s: string)
    requires |s| > 0 && IsSpace(s[|s| - 1])
    ensures Split(s)[|Split(s)| - 1] == ""
  {
    var n := |s|;
    var c := s[n - 1];
    assert s == s[..n - 1] + [c];
    SplitAppend(s[..n - 1], [c]);
    assert [c][1..] == [];
    assert Split([c]) == ["", ""];
  }

  /** The flags `doFlags` calls: the longest prefix of the list whose names
      are all registered. */
  function RegisteredPrefix(reg: FlagTable, flags: seq<string>): (p: seq<string>)
    ensures p <= flags
    ensures forall i :: 0 <= i < |p| ==> p[i] in reg
    ensures p == flags || flags[|p|] !in reg
  {
    if |flags| == 0 || flags[0] !in reg then []
    else [flags[0]] + RegisteredPrefix(reg, flags[1..])
  }

  /** `doFlags`: calls the registered flags of the list in order and stops
      at the first name that is not registered; returns the names it
      called. Every call receives the same field and event, which are not
      part of the returned list. */
  method DoFlags(reg: FlagTable, flags: seq<string>) returns (called: seq<string>)
    ensures called == RegisteredPrefix(reg, flags)
  {
    called := [];
    var i := 0;
    while i < |flags|
      invariant 0 <= i <= |flags|
      invariant called == flags[..i]
      invariant forall j :: 0 <= j < i ==> flags[j] in reg
    {
      var f := flags[i];
      if f in reg {
        called := called + [f];
      } else {
        break;
      }
      i := i + 1;
    }
  }
}
