/**
 An independent description of what the extraction of src/ofApp.cpp
 produces: the list of every candidate point in loop-nest order (column
 group ascending, then row ascending), filtered by the region test with
 the survivors kept in order. The lemmas here connect `Extraction.Extract`
 to that description and derive membership, order, count and the
 irrelevance of the fourth pixel of every group.
 */
module ScanReference {
  import opened Channels
  import opened Bounds
  import opened Extraction

  /* ---------------------------------------------------------------- */
  /* Filtering a candidate list by the region test                    */
  /* ---------------------------------------------------------------- */

  /** The in-region elements of `s`, in their original order. */
  function Retain(s: seq<Point>): (r: seq<Point>)
    ensures |r| <= |s|
    decreases |s|
  {
    if |s| == 0 then
      []
    else
      var last := s[|s| - 1];
      Retain(s[..|s| - 1]) + (if InRegion(last) then [last] else [])
  }

  /** Filtering distributes over concatenation. */
  lemma {:induction false} RetainAppend(a: seq<Point>, b: seq<Point>)
    ensures Retain(a + b) == Retain(a) + Retain(b)
    decreases |b|
  {
    if |b| == 0 {
      assert a + b == a;
    } else {
      var last := b[|b| - 1];
      assert (a + b)[..|a + b| - 1] == a + b[..|b| - 1];
      RetainAppend(a, b[..|b| - 1]);
    }
  }

  /** A point is retained exactly when it is in the list and in the region. */
  lemma {:induction false} RetainMembership(s: seq<Point>, p: Point)
    ensures p in Retain(s) <==> p in s && InRegion(p)
    decreases |s|
  {
    if |s| > 0 {
      var init := s[..|s| - 1];
      assert s == init + [s[|s| - 1]];
      RetainMembership(init, p);
    }
  }

  /** Where candidate `k` lands in the filtered list, if it is retained. */
  function Rank(s: seq<Point>, k: nat): (rank: nat)
    requires k <= |s|
  {
    |Retain(s[..k])|
  }

  /** A retained candidate sits at its rank in the filtered list. */
  lemma RetainAt(s: seq<Point>, k: nat)
    requires k < |s| && InRegion(s[k])
    ensures Rank(s, k) < |Retain(s)| && Retain(s)[Rank(s, k)] == s[k]
  {
    assert s == s[..k] + ([s[k]] + s[k + 1..]);
    RetainAppend(s[..k], [s[k]] + s[k + 1..]);
    RetainAppend([s[k]], s[k + 1..]);
    assert Retain([s[k]]) == [s[k]] by {
      assert [s[k]][..0] == [];
    }
  }

  /**
   Filtering keeps relative order: of two retained candidates, the earlier
   one is placed earlier in the filtered list.
   */
  lemma RetainKeepsOrder(s: seq<Point>, k1: nat, k2: nat)
    requires k1 < k2 < |s| && InRegion(s[k1]) && InRegion(s[k2])
    ensures Rank(s, k1) < Rank(s, k2) < |Retain(s)|
    ensures Retain(s)[Rank(s, k1)] == s[k1] && Retain(s)[Rank(s, k2)] == s[k2]
  {
    RetainAt(s, k1);
    RetainAt(s, k2);
    assert s[..k2] == s[..k1] + s[k1..k2];
    RetainAppend(s[..k1], s[k1..k2]);
    RetainMembership(s[k1..k2], s[k1]);
    assert s[k1..k2][0] == s[k1];
  }

  /* ---------------------------------------------------------------- */
  /* The candidates in loop-nest order                                */
  /* ---------------------------------------------------------------- */

  /** The candidates of rows 0 .. m-1 of the group starting at column `i`. */
  function GroupCandidates(img: Image, decode: Decoder, i: nat, m: nat): (r: seq<Point>)
    requires WellFormed(img) && i + 2 < img.width && m <= img.height
  {
    seq(m, j requires 0 <= j < m => CandidateAt(img, decode, i, j))
  }

  /** Every candidate of the first `g` column groups, group by group. */
  function Candidates(img: Image, decode: Decoder, g: nat): (r: seq<Point>)
    requires WellFormed(img) && 4 * g <= img.width
    decreases g
  {
    if g == 0 then
      []
    else
      Candidates(img, decode, g - 1) + GroupCandidates(img, decode, 4 * (g - 1), img.height)
  }

  /** The position of candidate (i, j) in the scan: all earlier groups come first. */
  function ScanIndex(img: Image, i: nat, j: nat): (index: nat)
  {
    (i / 4) * img.height + j
  }

  /** There is one candidate per group and row. */
  lemma {:induction false} CandidatesLength(img: Image, decode: Decoder, g: nat)
    requires WellFormed(img) && 4 * g <= img.width
    ensures |Candidates(img, decode, g)| == g * img.height
    decreases g
  {
    if g > 0 {
      CandidatesLength(img, decode, g - 1);
      assert g * img.height == (g - 1) * img.height + img.height;
    }
  }

  /** Multiplying by a natural number keeps order. */
  lemma MulMonotone(a: nat, b: nat, h: nat)
    ensures a <= b ==> a * h <= b * h
  {
  }

  /** Candidates of distinct groups or rows occupy the scan positions in loop-nest order. */
  lemma ScanIndexOrder(img: Image, i1: nat, j1: nat, i2: nat, j2: nat)
    requires i1 % 4 == 0 && i2 % 4 == 0 && j1 < img.height && j2 < img.height
    requires i1 < i2 || (i1 == i2 && j1 < j2)
    ensures ScanIndex(img, i1, j1) < ScanIndex(img, i2, j2)
  {
    MulMonotone(i1 / 4 + 1, i2 / 4, img.height);
    assert (i1 / 4 + 1) * img.height == (i1 / 4) * img.height + img.height;
  }

  /**
   Candidate (i, j) is at position ScanIndex(i, j): x from pixel (i, j),
   y from (i+1, j), z from (i+2, j).
   */
  lemma {:induction false} CandidatePosition(img: Image, decode: Decoder, g: nat, i: nat, j: nat)
    requires WellFormed(img) && 4 * g <= img.width
    requires i % 4 == 0 && i < 4 * g && j < img.height
    ensures ScanIndex(img, i, j) < |Candidates(img, decode, g)|
    ensures Candidates(img, decode, g)[ScanIndex(img, i, j)] == CandidateAt(img, decode, i, j)
    decreases g
  {
    CandidatesLength(img, decode, g - 1);
    var prefix := Candidates(img, decode, g - 1);
    if i < 4 * (g - 1) {
      CandidatePosition(img, decode, g - 1, i, j);
    } else {
      assert i == 4 * (g - 1);
      assert ScanIndex(img, i, j) == |prefix| + j;
    }
  }

  /* ---------------------------------------------------------------- */
  /* The extraction is the filtered candidate list                    */
  /* ---------------------------------------------------------------- */

  /** One group's inner loop retains exactly that group's in-region candidates. */
  lemma {:induction false} ColumnIsRetained(img: Image, decode: Decoder, i: nat, m: nat)
    requires WellFormed(img) && i + 2 < img.width && m <= img.height
    ensures Column(img, decode, i, m) == Retain(GroupCandidates(img, decode, i, m))
    decreases m
  {
    if m > 0 {
      ColumnIsRetained(img, decode, i, m - 1);
      var s := GroupCandidates(img, decode, i, m);
      assert s[..m - 1] == GroupCandidates(img, decode, i, m - 1);
    }
  }

  /** The first g groups retain exactly their in-region candidates, group after group. */
  lemma {:induction false} ScanIsRetained(img: Image, decode: Decoder, g: nat)
    requires WellFormed(img) && 4 * g <= img.width
    ensures Scan(img, decode, g) == Retain(Candidates(img, decode, g))
    decreases g
  {
    if g > 0 {
      ScanIsRetained(img, decode, g - 1);
      var i := 4 * (g - 1);
      var before := Candidates(img, decode, g - 1);
      var group := GroupCandidates(img, decode, i, img.height);
      RetainAppend(before, group);
      ColumnIsRetained(img, decode, i, img.height);
    }
  }

  /**
   The vertex list is exactly the candidate list of the whole image,
   filtered by the region test with order preserved.
   */
  lemma ExtractIsRetainedCandidates(img: Image, decode: Decoder)
    requires GroupsInRange(img)
    ensures Extract(img, decode) == Retain(Candidates(img, decode, img.width / 4))
  {
    ScanIsRetained(img, decode, img.width / 4);
  }

  /* ---------------------------------------------------------------- */
  /* Properties of the extraction                                     */
  /* ---------------------------------------------------------------- */

  /** Every vertex appended to the mesh passes `isWithinBounds`. */
  lemma ExtractSound(img: Image, decode: Decoder)
    requires GroupsInRange(img)
    ensures forall p :: p in Extract(img, decode) ==> InRegion(p)
  {
    ExtractIsRetainedCandidates(img, decode);
    forall p | p in Extract(img, decode)
      ensures InRegion(p)
    {
      RetainMembership(Candidates(img, decode, img.width / 4), p);
    }
  }

  /** `p` is the candidate of some column group i (i % 4 == 0) and row j. */
  predicate IsCandidate(img: Image, decode: Decoder, p: Point)
    requires GroupsInRange(img)
  {
    exists i: nat, j: nat :: i + 3 < img.width && i % 4 == 0 && j < img.height &&
      CandidateAt(img, decode, i, j) == p
  }

  /** Position k of a list of g groups of h rows splits into a group and a row. */
  lemma SplitIndex(k: nat, g: nat, h: nat)
    requires k < g * h
    ensures h > 0 && k / h < g && k == (k / h) * h + k % h
  {
  }

  /** Every entry of the candidate list is the candidate of some group and row. */
  lemma CandidateEntry(img: Image, decode: Decoder, k: nat)
    requires GroupsInRange(img) && k < |Candidates(img, decode, img.width / 4)|
    ensures IsCandidate(img, decode, Candidates(img, decode, img.width / 4)[k])
  {
    var g := img.width / 4;
    CandidatesLength(img, decode, g);
    SplitIndex(k, g, img.height);
    var i, j := 4 * (k / img.height), k % img.height;
    assert ScanIndex(img, i, j) == k;
    CandidatePosition(img, decode, g, i, j);
  }

  /** The candidate list holds exactly the candidates of the image. */
  lemma CandidatesAreAll(img: Image, decode: Decoder, p: Point)
    requires GroupsInRange(img)
    ensures p in Candidates(img, decode, img.width / 4) <==> IsCandidate(img, decode, p)
  {
    var cs := Candidates(img, decode, img.width / 4);
    if p in cs {
      var k :| 0 <= k < |cs| && cs[k] == p;
      CandidateEntry(img, decode, k);
    }
    if IsCandidate(img, decode, p) {
      var i: nat, j: nat :| i + 3 < img.width && i % 4 == 0 && j < img.height &&
        CandidateAt(img, decode, i, j) == p;
      CandidatePosition(img, decode, img.width / 4, i, j);
    }
  }

  /**
   A point is in the mesh exactly when it lies in the region and is the
   candidate of some column group and row: in-region candidates are never
   dropped, and nothing else is ever added.
   */
  lemma ExtractMembership(img: Image, decode: Decoder, p: Point)
    requires GroupsInRange(img)
    ensures p in Extract(img, decode) <==> InRegion(p) && IsCandidate(img, decode, p)
  {
    ExtractIsRetainedCandidates(img, decode);
    RetainMembership(Candidates(img, decode, img.width / 4), p);
    CandidatesAreAll(img, decode, p);
  }

  /** The ranks, in the filtered candidate list, of two in-region candidates in scan order. */
  lemma RetainedInScanOrder(img: Image, decode: Decoder, i1: nat, j1: nat, i2: nat, j2: nat)
    returns (a: nat, b: nat)
    requires GroupsInRange(img)
    requires i1 % 4 == 0 && i1 < img.width && j1 < img.height
    requires i2 % 4 == 0 && i2 < img.width && j2 < img.height
    requires i1 < i2 || (i1 == i2 && j1 < j2)
    requires InRegion(CandidateAt(img, decode, i1, j1)) && InRegion(CandidateAt(img, decode, i2, j2))
    ensures a < b < |Retain(Candidates(img, decode, img.width / 4))|
    ensures Retain(Candidates(img, decode, img.width / 4))[a] == CandidateAt(img, decode, i1, j1)
    ensures Retain(Candidates(img, decode, img.width / 4))[b] == CandidateAt(img, decode, i2, j2)
  {
    var g := img.width / 4;
    var cs := Candidates(img, decode, g);
    CandidatePosition(img, decode, g, i1, j1);
    CandidatePosition(img, decode, g, i2, j2);
    var k1, k2 := ScanIndex(img, i1, j1), ScanIndex(img, i2, j2);
    ScanIndexOrder(img, i1, j1, i2, j2);
    RetainKeepsOrder(cs, k1, k2);
    a, b := Rank(cs, k1), Rank(cs, k2);
  }

  /**
   Scan order is kept: if candidate (i1, j1) comes before (i2, j2) in the
   loop nest (earlier group, or same group and earlier row) and both are in
   the region, the first is placed before the second in the mesh.
   */
  lemma ExtractKeepsScanOrder(img: Image, decode: Decoder, i1: nat, j1: nat, i2: nat, j2: nat)
    requires GroupsInRange(img)
    requires i1 % 4 == 0 && i1 < img.width && j1 < img.height
    requires i2 % 4 == 0 && i2 < img.width && j2 < img.height
    requires i1 < i2 || (i1 == i2 && j1 < j2)
    requires InRegion(CandidateAt(img, decode, i1, j1)) && InRegion(CandidateAt(img, decode, i2, j2))
    ensures exists a, b ::
      && 0 <= a < b < |Extract(img, decode)|
      && Extract(img, decode)[a] == CandidateAt(img, decode, i1, j1)
      && Extract(img, decode)[b] == CandidateAt(img, decode, i2, j2)
  {
    ExtractIsRetainedCandidates(img, decode);
    var a, b := RetainedInScanOrder(img, decode, i1, j1, i2, j2);
    assert Extract(img, decode)[a] == CandidateAt(img, decode, i1, j1);
  }

  /** No more vertices than candidate groups: at most ((w + 3) / 4) * h. */
  lemma ExtractCountBound(img: Image, decode: Decoder)
    requires GroupsInRange(img)
    ensures |Extract(img, decode)| <= ((img.width + 3) / 4) * img.height
  {
    ExtractIsRetainedCandidates(img, decode);
    CandidatesLength(img, decode, img.width / 4);
    assert (img.width + 3) / 4 == img.width / 4;
  }

  /* ---------------------------------------------------------------- */
  /* The fourth pixel of every group is unused                        */
  /* ---------------------------------------------------------------- */

  /** Two images of equal size that agree on every pixel except those at columns 3, 7, 11, ... */
  predicate AgreeOffPadding(a: Image, b: Image)
    requires WellFormed(a) && WellFormed(b)
  {
    && a.width == b.width && a.height == b.height
    && forall j, i :: 0 <= j < a.height && 0 <= i < a.width && i % 4 != 3 ==>
         a.rows[j][i] == b.rows[j][i]
  }

  /** The first g groups give the same points on two images that differ only in padding. */
  lemma {:induction false} ScanIgnoresPadding(a: Image, b: Image, decode: Decoder, g: nat)
    requires WellFormed(a) && WellFormed(b) && AgreeOffPadding(a, b) && 4 * g <= a.width
    ensures Scan(a, decode, g) == Scan(b, decode, g)
    decreases g
  {
    if g > 0 {
      ScanIgnoresPadding(a, b, decode, g - 1);
      ColumnIgnoresPadding(a, b, decode, 4 * (g - 1), a.height);
    }
  }

  /** One group gives the same points on two images that differ only in padding. */
  lemma {:induction false} ColumnIgnoresPadding(a: Image, b: Image, decode: Decoder, i: nat, m: nat)
    requires WellFormed(a) && WellFormed(b) && AgreeOffPadding(a, b)
    requires i % 4 == 0 && i + 2 < a.width && m <= a.height
    ensures Column(a, decode, i, m) == Column(b, decode, i, m)
    decreases m
  {
    if m > 0 {
      ColumnIgnoresPadding(a, b, decode, i, m - 1);
      var j := m - 1;
      assert At(a, i, j) == At(b, i, j);
      assert At(a, i + 1, j) == At(b, i + 1, j);
      assert At(a, i + 2, j) == At(b, i + 2, j);
    }
  }

  /**
   Pixel (i+3, j) of every group has no influence: images that differ only
   there give the same vertex list.
   */
  lemma ExtractIgnoresPadding(a: Image, b: Image, decode: Decoder)
    requires GroupsInRange(a) && GroupsInRange(b) && AgreeOffPadding(a, b)
    ensures Extract(a, decode) == Extract(b, decode)
  {
    ScanIgnoresPadding(a, b, decode, a.width / 4);
  }
}
