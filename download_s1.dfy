/**
 * The pure parts of the Sentinel-1 acquisition script: the WKT polygon of a bounding
 * box, and the choice of scenes from the numbers typed at the prompt.
 */
module DownloadS1 {
  import opened Results
  import opened Text

  type Point = (real, real)

  /**
   * The ring of `convect_bbox_to_wkt` for `bbox = [minLon, minLat, maxLon, maxLat]`:
   * the four corners counter-clockwise from (minLon, minLat), and that corner again.
   * Nothing checks that the minima lie below the maxima.
   */
  function BboxRing(bbox: seq<real>): (ring: seq<Point>)
    requires |bbox| >= 4
    ensures |ring| == 5 && ring[4] == ring[0]
  {
    [(bbox[0], bbox[1]), (bbox[2], bbox[1]), (bbox[2], bbox[3]), (bbox[0], bbox[3]), (bbox[0], bbox[1])]
  }

  /** Twice the signed area of a closed ring (shoelace formula). */
  function TwiceSignedArea(ring: seq<Point>): real {
    if |ring| < 2 then 0.0
    else ring[0].0 * ring[1].1 - ring[1].0 * ring[0].1 + TwiceSignedArea(ring[1..])
  }

  /** A product of two reals is positive exactly when both factors are non-zero and share a sign. */
  lemma PositiveProduct(a: real, b: real)
    ensures a * b > 0.0 <==> (a > 0.0 && b > 0.0) || (a < 0.0 && b < 0.0)
  {
    if a > 0.0 && b < 0.0 {
      assert a * b == -(a * -b);
    } else if a < 0.0 && b > 0.0 {
      assert a * b == -(-a * b);
    } else if a < 0.0 && b < 0.0 {
      assert a * b == -a * -b;
    }
  }

  /**
   * The ring bounds the box: its signed area is the box's width times its height, so
   * it runs counter-clockwise exactly when the two extents are non-zero and share a
   * sign (both minima below the maxima, or both above them).
   */
  lemma RingEnclosesBox(bbox: seq<real>)
    requires |bbox| >= 4
    ensures TwiceSignedArea(BboxRing(bbox)) == 2.0 * (bbox[2] - bbox[0]) * (bbox[3] - bbox[1])
    ensures TwiceSignedArea(BboxRing(bbox)) > 0.0 <==>
      (bbox[2] > bbox[0] && bbox[3] > bbox[1]) || (bbox[2] < bbox[0] && bbox[3] < bbox[1])
  {
    PositiveProduct(bbox[2] - bbox[0], bbox[3] - bbox[1]);
    var r := BboxRing(bbox);
    var x0, y0, x1, y1 := bbox[0], bbox[1], bbox[2], bbox[3];
    assert TwiceSignedArea(r[4..]) == 0.0;
    assert r[3..][1..] == r[4..];
    assert TwiceSignedArea(r[3..]) == x0 * y0 - x0 * y1;
    assert r[2..][1..] == r[3..];
    assert TwiceSignedArea(r[2..]) == x1 * y1 - x0 * y1 + x0 * y0 - x0 * y1;
    assert r[1..][1..] == r[2..];
    assert TwiceSignedArea(r[1..]) == x1 * y1 - x1 * y0 + x1 * y1 - x0 * y1 + x0 * y0 - x0 * y1;
    assert r[1..] == r[1..];
  }

  predicate NoComma(s: string) {
    ',' !in s
  }

  /** `f"{x} {y}"` with `text` standing for Python's `str` of a float. */
  function PointText(text: real -> string, p: Point): string {
    text(p.0) + " " + text(p.1)
  }

  /** `convect_bbox_to_wkt`. */
  function BboxToWkt(text: real -> string, bbox: seq<real>): string
    requires |bbox| >= 4
  {
    "POLYGON ((" + PointText(text, (bbox[0], bbox[1])) + ", " + PointText(text, (bbox[2], bbox[1])) + ", "
    + PointText(text, (bbox[2], bbox[3])) + ", " + PointText(text, (bbox[0], bbox[3])) + ", "
    + PointText(text, (bbox[0], bbox[1])) + "))"
  }

  /**
   * The WKT text lists exactly the vertices of the ring: with numbers that print
   * without commas, splitting it at its commas gives one piece per ring vertex.
   */
  lemma WktListsRing(text: real -> string, bbox: seq<real>)
    requires |bbox| >= 4
    requires forall k :: 0 <= k < 4 ==> NoComma(text(bbox[k]))
    ensures var pieces := Split(BboxToWkt(text, bbox), ',');
            var ring := BboxRing(bbox);
            |pieces| == 5 && pieces[0] == "POLYGON ((" + PointText(text, ring[0])
            && (forall k :: 1 <= k < 4 ==> pieces[k] == " " + PointText(text, ring[k]))
            && pieces[4] == " " + PointText(text, ring[4]) + "))"
  {
    var ring := BboxRing(bbox);
    var p := seq(5, k requires 0 <= k < 5 => PointText(text, ring[k]));
    assert NoComma(text(bbox[0])) && NoComma(text(bbox[1])) && NoComma(text(bbox[2])) && NoComma(text(bbox[3]));
    assert forall k :: 0 <= k < 5 ==> ',' !in p[k];
    var e0 := "POLYGON ((" + p[0];
    var e1 := e0 + ", " + p[1];
    var e2 := e1 + ", " + p[2];
    var e3 := e2 + ", " + p[3];
    var e4 := e3 + ", " + p[4];
    assert BboxToWkt(text, bbox) == e4 + "))";
    CommaSpace(e0, p[1]);
    CommaSpace(e1, p[2]);
    CommaSpace(e2, p[3]);
    CommaSpace(e3, p[4]);
    assert e4 + "))" == e3 + [','] + (" " + p[4] + "))");
    FivePieces(e0, " " + p[1], " " + p[2], " " + p[3], " " + p[4] + "))");
  }

  lemma CommaSpace(e: string, p: string)
    ensures e + ", " + p == e + [','] + (" " + p)
  {
    assert ", " == [','] + " ";
  }

  /** Five comma-free runs separated by commas split into those runs. */
  lemma FivePieces(a0: string, a1: string, a2: string, a3: string, a4: string)
    requires ',' !in a0 && ',' !in a1 && ',' !in a2 && ',' !in a3 && ',' !in a4
    ensures Split(a0 + [','] + a1 + [','] + a2 + [','] + a3 + [','] + a4, ',') == [a0, a1, a2, a3, a4]
  {
    SplitWithoutSeparator(a0, ',');
    SplitBeforeRun(a0, ',', a1);
    SplitBeforeRun(a0 + [','] + a1, ',', a2);
    SplitBeforeRun(a0 + [','] + a1 + [','] + a2, ',', a3);
    SplitBeforeRun(a0 + [','] + a1 + [','] + a2 + [','] + a3, ',', a4);
  }

  /** `int(token.strip()) - 1`, or None for a `ValueError`. */
  function TokenIndex(token: string): Option<int> {
    match ParseInt(Strip(token))
    case None => None
    case Some(n) => Some(n - 1)
  }

  /** The whole list when every entry is present, None as soon as one is missing. */
  function AllPresent(entries: seq<Option<int>>): (r: Option<seq<int>>)
    ensures r.Some? <==> forall k :: 0 <= k < |entries| ==> entries[k].Some?
    ensures r.Some? ==> (|r.value| == |entries|
              && forall k :: 0 <= k < |entries| ==> Some(r.value[k]) == entries[k])
  {
    if |entries| == 0 then Some([])
    else
      match entries[0]
      case None => None
      case Some(i) =>
        match AllPresent(entries[1..])
        case None => None
        case Some(rest) =>
          assert forall k :: 1 <= k < |entries| ==> entries[1..][k - 1] == entries[k];
          Some([i] + rest)
  }

  /**
   * `[int(i.strip()) - 1 for i in tokens]`: the zero-based indices, or None as soon as
   * one token is not an integer (the `ValueError` branch).
   */
  function ParseIndices(tokens: seq<string>): (r: Option<seq<int>>)
    ensures r.Some? <==> forall k :: 0 <= k < |tokens| ==> TokenIndex(tokens[k]).Some?
    ensures r.Some? ==> (|r.value| == |tokens|
              && forall k :: 0 <= k < |tokens| ==> Some(r.value[k]) == TokenIndex(tokens[k]))
  {
    var entries := seq(|tokens|, k requires 0 <= k < |tokens| => TokenIndex(tokens[k]));
    assert forall k :: 0 <= k < |tokens| ==> entries[k] == TokenIndex(tokens[k]);
    AllPresent(entries)
  }

  /** The indices typed at the prompt: the input split at commas. */
  function SelectedIndices(input: string): Option<seq<int>> {
    ParseIndices(Split(input, ','))
  }

  /** A trailing comma leaves an empty token, which `int` refuses, so the input is rejected. */
  lemma TrailingCommaRejected(input: string)
    ensures SelectedIndices(input + ",") == None
  {
    TrailingSeparator(input, ',');
    var tokens := Split(input + [','], ',');
    assert ParseInt(Strip(tokens[|tokens| - 1])) == None;
  }

  /**
   * A token with more than `MaxStrDigits` digits makes `int` raise, so the whole line is
   * rejected even though its other token is a valid scene number.
   */
  lemma OverlongNumberRejected()
    ensures SelectedIndices("1, " + seq(MaxStrDigits + 1, _ => '1')) == None
  {
    var ones: string := seq(MaxStrDigits + 1, _ => '1');
    var b: string := " " + ones;
    assert ',' !in b;
    assert "1, " + ones == "1" + [','] + b;
    SplitWithoutSeparator("1", ',');
    SplitBeforeRun("1", ',', b);
    StripSlice(b);
    TooManyDigitsRejected();
    assert TokenIndex(Split("1, " + ones, ',')[1]) == None;
  }

  /** The text of a number is a token without commas that reads back as that number. */
  lemma NumberToken(n: int)
    requires Printable(n)
    ensures ',' !in IntToText(n) && TokenIndex(IntToText(n)) == Some(n - 1)
  {
    ParseIntToText(n);
    StripTrimmed(IntToText(n));
    if n < 0 {
      assert IntToText(n)[1..] == NatToText(-n);
    }
  }

  /** Comma-free tokens that each parse, joined by commas, select their indices in order. */
  lemma JoinedTokensSelect(texts: seq<string>, indices: seq<int>)
    requires |texts| > 0 && |texts| == |indices|
    requires forall k :: 0 <= k < |texts| ==> ',' !in texts[k] && TokenIndex(texts[k]) == Some(indices[k])
    ensures SelectedIndices(Join(texts, ",")) == Some(indices)
  {
    assert "," == [','];
    SplitJoin(texts, ',');
    var r := ParseIndices(texts);
    assert r.value == indices;
  }

  /**
   * Typing the numbers back as `str` values joined by commas selects those numbers minus
   * one, for every list of numbers `str` can print.
   */
  lemma NumbersRoundTrip(numbers: seq<int>)
    requires |numbers| > 0
    requires forall k :: 0 <= k < |numbers| ==> Printable(numbers[k])
    ensures SelectedIndices(Join(seq(|numbers|, k requires 0 <= k < |numbers| => IntToText(numbers[k])), ","))
            == Some(seq(|numbers|, k requires 0 <= k < |numbers| => numbers[k] - 1))
  {
    var texts := seq(|numbers|, k requires 0 <= k < |numbers| => IntToText(numbers[k]));
    var indices := seq(|numbers|, k requires 0 <= k < |numbers| => numbers[k] - 1);
    forall k | 0 <= k < |texts| ensures ',' !in texts[k] && TokenIndex(texts[k]) == Some(indices[k]) {
      NumberToken(numbers[k]);
    }
    JoinedTokensSelect(texts, indices);
  }

  /** The results at the valid indices `0 <= i < |results|`, in order, duplicates kept. */
  function Pick<T>(results: seq<T>, indices: seq<int>): seq<T> {
    if |indices| == 0 then []
    else
      var last := indices[|indices| - 1];
      Pick(results, indices[..|indices| - 1]) + (if 0 <= last < |results| then [results[last]] else [])
  }

  /** The scene numbers (index + 1) that are reported as invalid and skipped. */
  function Skipped(count: nat, indices: seq<int>): seq<int> {
    if |indices| == 0 then []
    else
      var last := indices[|indices| - 1];
      Skipped(count, indices[..|indices| - 1]) + (if 0 <= last < count then [] else [last + 1])
  }

  /** Every index is either picked or skipped. */
  lemma {:induction false} PickOrSkip<T>(results: seq<T>, indices: seq<int>)
    ensures |Pick(results, indices)| + |Skipped(|results|, indices)| == |indices|
    ensures forall k :: 0 <= k < |Skipped(|results|, indices)| ==> !(1 <= Skipped(|results|, indices)[k] <= |results|)
  {
    if |indices| > 0 {
      PickOrSkip(results, indices[..|indices| - 1]);
    }
  }

  /** Picking distributes over concatenation of index lists. */
  lemma {:induction false} PickConcat<T>(results: seq<T>, a: seq<int>, b: seq<int>)
    ensures Pick(results, a + b) == Pick(results, a) + Pick(results, b)
  {
    if |b| > 0 {
      var ab := a + b;
      assert ab[..|ab| - 1] == a + b[..|b| - 1];
      assert ab[|ab| - 1] == b[|b| - 1];
      PickConcat(results, a, b[..|b| - 1]);
    } else {
      assert a + b == a;
    }
  }

  /** With every index valid, the picked scenes are exactly those at the indices. */
  lemma {:induction false} PickAllValid<T>(results: seq<T>, indices: seq<int>)
    requires forall k :: 0 <= k < |indices| ==> 0 <= indices[k] < |results|
    ensures Pick(results, indices) == seq(|indices|, k requires 0 <= k < |indices| => results[indices[k]])
  {
    if |indices| > 0 {
      var init := indices[..|indices| - 1];
      PickAllValid(results, init);
      var want := seq(|indices|, k requires 0 <= k < |indices| => results[indices[k]]);
      assert want[..|init|] == seq(|init|, k requires 0 <= k < |init| => results[init[k]]);
      assert want == want[..|init|] + [results[indices[|init|]]];
    }
  }

  /** Some index lies in `0 <= i < count`. */
  predicate SomeValid(count: nat, indices: seq<int>) {
    exists k :: 0 <= k < |indices| && 0 <= indices[k] < count
  }

  /** Nothing is picked exactly when no index is valid. */
  lemma {:induction false} PickEmptyIff<T>(results: seq<T>, indices: seq<int>)
    ensures Pick(results, indices) == [] <==> !SomeValid(|results|, indices)
  {
    if |indices| > 0 {
      PickEmptyIff(results, indices[..|indices| - 1]);
      var last := |indices| - 1;
      assert forall k :: 0 <= k < last ==> indices[..last][k] == indices[k];
    }
  }

  /** The selection loop of `download_selected_scenes`. */
  method SelectScenes<T>(results: seq<T>, indices: seq<int>) returns (selected: seq<T>, skipped: seq<int>)
    ensures selected == Pick(results, indices)
    ensures skipped == Skipped(|results|, indices)
    ensures |selected| + |skipped| == |indices|
  {
    selected := [];
    skipped := [];
    for n := 0 to |indices|
      invariant selected == Pick(results, indices[..n])
      invariant skipped == Skipped(|results|, indices[..n])
    {
      var i := indices[n];
      assert indices[..n + 1][..n] == indices[..n];
      if 0 <= i < |results| {
        selected := selected + [results[i]];
      } else {
        skipped := skipped + [i + 1];
      }
    }
    assert indices[..|indices|] == indices;
    PickOrSkip(results, indices);
  }

  /** How `download_selected_scenes` ends. */
  datatype Outcome<T> =
    | NoScenes
    | InvalidInput
    | NothingSelected(skipped: seq<int>)
    | Download(scenes: seq<T>, skipped: seq<int>)

  /**
   * `download_selected_scenes` with the line typed at the prompt as `input`. The
   * prompt is only shown when there are results; a download is made exactly when
   * some index is valid, and it is given the whole result list.
   */
  method DownloadSelectedScenes<T>(results: seq<T>, input: string) returns (outcome: Outcome<T>)
    ensures outcome == NoScenes <==> |results| == 0
    ensures outcome == InvalidInput <==> |results| > 0 && SelectedIndices(input) == None
    ensures outcome.Download? <==>
              |results| > 0 && SelectedIndices(input).Some? && SomeValid(|results|, SelectedIndices(input).value)
    ensures outcome.Download? ==> outcome.scenes == results
    ensures outcome.NothingSelected? || outcome.Download? ==> outcome.skipped == Skipped(|results|, SelectedIndices(input).value)
  {
    if |results| == 0 {
      return NoScenes;
    }
    var parsed := SelectedIndices(input);
    if parsed.None? {
      return InvalidInput;
    }
    var selected, skipped := SelectScenes(results, parsed.value);
    PickEmptyIff(results, parsed.value);
    if |selected| > 0 {
      outcome := Download(results, skipped);
    } else {
      outcome := NothingSelected(skipped);
    }
  }
}
