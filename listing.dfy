/**
 * The listing scraper's cascade (`get_wheel_names`). Parsing the HTML
 * document and matching text against the `.whl` pattern are left to the
 * caller: the three extraction strategies arrive here as their results,
 * each already in document order.
 */
module Listing {

  /** What the three extraction strategies found in one directory listing. */
  datatype Extracted = Extracted(
    cells: seq<string>,    // text of `td` cells of class `colname` that look like wheel names
    anchors: seq<string>,  // text of links that look like wheel names
    texts: seq<string>)    // every text node that looks like a wheel name

  /**
   * The candidate names of a listing: the table cells if there are any,
   * otherwise the links if there are any, otherwise the raw text nodes.
   * Finding nothing at all is not an error: the result is then empty.
   */
  function WheelNames(x: Extracted): (r: seq<string>)
    ensures r == [] <==> x.cells == [] && x.anchors == [] && x.texts == []
    ensures x.cells != [] ==> r == x.cells
    ensures x.cells == [] && x.anchors != [] ==> r == x.anchors
    ensures x.cells == [] && x.anchors == [] ==> r == x.texts
  {
    if x.cells != [] then x.cells
    else if x.anchors != [] then x.anchors
    else x.texts
  }

  /** Reference definition: try strategies in order and keep the first that found something. */
  function FirstNonEmpty<T>(results: seq<seq<T>>): seq<T> {
    if results == [] then []
    else if results[0] != [] then results[0]
    else FirstNonEmpty(results[1..])
  }

  /** The first non-empty result is chosen: everything before it found nothing,
    * and nothing at all is found only when every strategy found nothing. */
  lemma {:induction false} FirstNonEmptyChooses<T>(results: seq<seq<T>>)
    ensures var r := FirstNonEmpty(results);
            (r == [] <==> forall k :: 0 <= k < |results| ==> results[k] == []) &&
            (r != [] ==> exists k :: 0 <= k < |results| && results[k] == r &&
                           forall j :: 0 <= j < k ==> results[j] == [])
  {
    if results != [] && results[0] == [] {
      var rest := results[1..];
      FirstNonEmptyChooses(rest);
      var r := FirstNonEmpty(results);
      if r != [] {
        var k :| 0 <= k < |rest| && rest[k] == r && forall j :: 0 <= j < k ==> rest[j] == [];
        assert results[k + 1] == r;
        assert forall j :: 0 <= j < k + 1 ==> results[j] == [] by {
          forall j | 0 <= j < k + 1 ensures results[j] == [] {
            if j > 0 { assert results[j] == rest[j - 1]; }
          }
        }
      } else {
        forall k | 0 <= k < |results| ensures results[k] == [] {
          if k > 0 { assert results[k] == rest[k - 1]; }
        }
      }
    } else if results != [] {
      assert results[0] == FirstNonEmpty(results);
    }
  }

  /** The cascade is the strategy-order reference applied to the three strategies. */
  lemma WheelNamesIsFirstNonEmpty(x: Extracted)
    ensures WheelNames(x) == FirstNonEmpty([x.cells, x.anchors, x.texts])
  {
    var results := [x.cells, x.anchors, x.texts];
    assert results[1..] == [x.anchors, x.texts];
    assert results[1..][1..] == [x.texts];
    assert results[1..][1..][1..] == [];
    assert FirstNonEmpty([x.texts]) == x.texts;
    assert FirstNonEmpty([x.anchors, x.texts]) == if x.anchors != [] then x.anchors else x.texts;
  }
}
