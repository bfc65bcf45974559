/** The model sets and the files each must contain (crates/diar-core/src/provision/files.rs). */
module ModelFiles {
  import opened Wrappers
  import opened Text

  const EXPORT_RECIPE_VERSION: nat := 2
  const MARKER_SCHEMA: nat := 1

  /** A file of a models directory; `Other` is any file the recipe does not know. */
  datatype FileName =
    | PldaLda | PldaMean1 | PldaMean2 | PldaMu | PldaPsi | PldaTr
    | MinNumSamples
    | Segmentation | SegmentationB32
    | Fbank | FbankB32
    | MultimaskTail | MultimaskTailB32
    | Resnet | ResnetB32
    | ResnetTail | ResnetTailB3 | ResnetTailB32
    | SegmentationB64 | ResnetB64 | MultimaskTailB64 | ResnetTailB64
    | GenderModel | GenderMeta
    | Other(name: string)

  const SHARED_REQUIRED: seq<FileName> := [
    PldaLda, PldaMean1, PldaMean2, PldaMu, PldaPsi, PldaTr, MinNumSamples,
    Segmentation, SegmentationB32, Fbank, FbankB32, MultimaskTail, MultimaskTailB32,
    Resnet, ResnetB32, ResnetTail, ResnetTailB3, ResnetTailB32]

  const FAST_ONLY_REQUIRED: seq<FileName> := [SegmentationB64, ResnetB64, MultimaskTailB64, ResnetTailB64]

  datatype ModelSet = Fast | Small {
    function AsStr(): string {
      match this
      case Fast => "fast"
      case Small => "small"
    }

    /** Does a directory provisioned as this set satisfy a server asking for `wanted`? */
    predicate Covers(wanted: ModelSet) {
      Fast? || wanted.Small?
    }
  }

  function ParseSet(s: string): Option<ModelSet> {
    var t := ToAsciiLowercase(Trim(s));
    if t == "fast" || t == "folded" then Some(Fast)
    else if t == "small" then Some(Small)
    else None
  }

  function RequiredFiles(set_: ModelSet, withGender: bool): seq<FileName> {
    SHARED_REQUIRED
    + (if set_.Fast? then FAST_ONLY_REQUIRED else [])
    + (if withGender then [GenderModel] + (if set_.Fast? then [GenderMeta] else []) else [])
  }

  /** A set name written into a marker is read back as the same set. */
  lemma ParseSetInvertsAsStr(s: ModelSet)
    ensures ParseSet(s.AsStr()) == Some(s)
  {
    var t := s.AsStr();
    assert Trim(t) == t;
    assert ToAsciiLowercase(t) == t;
  }

  /** `covers` is exactly inclusion of the required files, with or without gender. */
  lemma CoversIsInclusion(have: ModelSet, wanted: ModelSet)
    ensures have.Covers(wanted) <==>
            forall g: bool, f: FileName :: f in RequiredFiles(wanted, g) ==> f in RequiredFiles(have, g)
  {
    if !have.Covers(wanted) {
      assert FAST_ONLY_REQUIRED[0] in RequiredFiles(wanted, false);
      assert SegmentationB64 !in RequiredFiles(have, false);
    }
  }

  lemma GenderAddsFiles(s: ModelSet, g: bool)
    ensures forall f: FileName :: f in RequiredFiles(s, false) ==> f in RequiredFiles(s, g)
  {
  }

  lemma CoveredFile(have: ModelSet, g: bool, wanted: ModelSet, f: FileName)
    requires have.Covers(wanted) && f in RequiredFiles(wanted, false)
    ensures f in RequiredFiles(have, g)
  {
    CoversIsInclusion(have, wanted);
    GenderAddsFiles(have, g);
  }
}
