/** Normalisation of the `paper_id` argument of the download tool
    (main.py:89-91): keep the last '/'-separated segment, and if that segment
    ends with the letter 'v', cut it before its first 'v'. */
module PaperId {
  import opened Strings

  /** `paper_id.split('/')[-1]`. */
  function LastSegment(paperId: string): (seg: string)
    ensures '/' !in seg
    ensures |seg| <= |paperId| && paperId[|paperId| - |seg|..] == seg
    ensures '/' !in paperId ==> seg == paperId
    ensures seg == paperId || (|seg| < |paperId| && paperId[|paperId| - |seg| - 1] == '/')
  {
    var parts := Split(paperId, '/');
    LastPiece(paperId, '/');
    SplitCountWithoutSep(paperId, '/');
    var last := parts[|parts| - 1];
    assert '/' !in last;
    last
  }

  /** The segment after the last '/' is what LastSegment keeps. */
  lemma LastSegmentAfterSlash(prefix: string, seg: string)
    requires '/' !in seg
    ensures LastSegment(prefix + "/" + seg) == seg
  {
    SplitAtSep(prefix, seg, '/');
    SplitWithoutSep(seg, '/');
  }

  /** `clean_id` after main.py:89-91. The guard is `endswith('v')`, so a
      segment such as "2301.12345v2" is kept whole. */
  function CleanId(paperId: string): (clean: string)
    ensures '/' !in clean
    ensures !EndsWith(clean, 'v')
    ensures !EndsWith(LastSegment(paperId), 'v') ==> clean == LastSegment(paperId)
    ensures EndsWith(LastSegment(paperId), 'v') ==>
      var seg := LastSegment(paperId);
      'v' !in clean && |clean| < |seg| && seg[..|clean|] == clean && seg[|clean|] == 'v'
  {
    var seg := LastSegment(paperId);
    if EndsWith(seg, 'v') then
      FirstPiece(seg, 'v');
      var first := Split(seg, 'v')[0];
      assert forall k :: 0 <= k < |first| ==> first[k] == seg[k];
      first
    else
      seg
  }

  /** Normalising an already normalised id changes nothing. */
  lemma CleanIdIdempotent(paperId: string)
    ensures CleanId(CleanId(paperId)) == CleanId(paperId)
  {
  }

  /** A URL keeps only its last segment, and a segment ending in 'v' is cut
      before its first 'v'. */
  lemma CleanIdOfUrl(prefix: string, base: string, rest: string)
    requires '/' !in base + rest && 'v' !in base
    requires EndsWith(base + "v" + rest, 'v')
    ensures CleanId(prefix + "/" + base + "v" + rest) == base
  {
    var seg := base + "v" + rest;
    assert prefix + "/" + base + "v" + rest == prefix + "/" + seg;
    assert '/' !in seg;
    LastSegmentAfterSlash(prefix, seg);
    assert seg == base + ['v'] + rest;
    SplitAtSep(base, rest, 'v');
    SplitWithoutSep(base, 'v');
  }

  /** An id without '/' that does not end in 'v' is already normalised,
      whatever 'v's it holds elsewhere. */
  lemma CleanIdOfPlainId(paperId: string)
    requires '/' !in paperId && !EndsWith(paperId, 'v')
    ensures CleanId(paperId) == paperId
  {
  }

  /** A bare id is kept. */
  lemma CleanIdOfBareId()
    ensures CleanId("2301.12345") == "2301.12345"
  {
    CleanIdOfPlainId("2301.12345");
  }

  /** A numbered version suffix is kept: only a trailing 'v' triggers the cut. */
  lemma CleanIdKeepsNumberedVersion()
    ensures CleanId("2301.12345v2") == "2301.12345v2"
  {
    CleanIdOfPlainId("2301.12345v2");
  }

  /** An abstract-page URL gives the bare id. */
  lemma CleanIdOfAbsUrl()
    ensures CleanId("https://arxiv.org/abs/2301.12345") == "2301.12345"
  {
    assert "https://arxiv.org/abs/2301.12345" == "https://arxiv.org/abs" + "/" + "2301.12345";
    LastSegmentAfterSlash("https://arxiv.org/abs", "2301.12345");
  }

  /** An abstract-page URL whose id ends in 'v' gives the id before the 'v'. */
  lemma CleanIdOfAbsUrlTrailingV()
    ensures CleanId("https://arxiv.org/abs/2301.12345v") == "2301.12345"
  {
    assert "https://arxiv.org/abs/2301.12345v" == "https://arxiv.org/abs" + "/" + "2301.12345" + "v" + "";
    CleanIdOfUrl("https://arxiv.org/abs", "2301.12345", "");
  }
}
