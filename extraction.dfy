/**
 * Route parameters from the offset captures of one match
 * (`Router::handle`, the inner loop over `$matches`).
 *
 * `preg_match_all` with `PREG_OFFSET_CAPTURE` reports, for every capture
 * group, the captured text and its offset in the path; a group that did not
 * take part is reported as the empty text at offset -1. Group 0, the whole
 * match, is dropped before the parameters are read.
 */
module Extraction {
  import opened Wrappers
  import opened PhpStrings

  /** One capture group of a match: its text and its offset, -1 when it did not take part. */
  datatype Capture = Capture(text: string, offset: int)

  /** The parameter list handed to a handler: one string or `null` per group. */
  type Params = seq<Option<string>>

  /** What the regex engine guarantees of a report: -1 is the only negative offset and goes with the empty text. */
  predicate WellFormed(groups: seq<Capture>) {
    forall k :: 0 <= k < |groups| ==>
      groups[k].offset >= -1 && (groups[k].offset == -1 ==> groups[k].text == "")
  }

  /** Every participating group's text is the part of `path` at its offset. */
  predicate InPath(path: string, groups: seq<Capture>) {
    forall k :: 0 <= k < |groups| && groups[k].offset >= 0 ==>
      groups[k].offset + |groups[k].text| <= |path| &&
      path[groups[k].offset..groups[k].offset + |groups[k].text|] == groups[k].text
  }

  /** `array_slice($matches, 1)`: the groups without the whole match. */
  function DropWhole(matches: seq<Capture>): (groups: seq<Capture>)
    ensures |groups| == if |matches| > 0 then |matches| - 1 else 0
    ensures forall k :: 0 <= k < |groups| ==> groups[k] == matches[k + 1]
  {
    if matches == [] then [] else matches[1..]
  }

  /**
   * The value read for group `k`. When the next group took part, the text
   * is cut at the next group's offset (relative to this group's offset);
   * otherwise it is kept whole, or `null` when the group itself did not
   * take part.
   */
  function ParamAt(groups: seq<Capture>, k: nat): Option<string>
    requires k < |groups|
  {
    if k + 1 < |groups| && groups[k + 1].offset > -1 then
      Some(TrimSlashes(Substr0(groups[k].text, groups[k + 1].offset - groups[k].offset)))
    else if groups[k].offset != -1 then
      Some(TrimSlashes(groups[k].text))
    else
      None
  }

  /** The values of groups `i`, `i + 1`, ... in order. */
  function ExtractFrom(groups: seq<Capture>, i: nat): (params: Params)
    requires i <= |groups|
    ensures |params| == |groups| - i
    decreases |groups| - i
  {
    if i == |groups| then [] else [ParamAt(groups, i)] + ExtractFrom(groups, i + 1)
  }

  /** The parameters of a match: exactly one value per group, in group order. */
  function Extract(groups: seq<Capture>): (params: Params)
    ensures |params| == |groups|
  {
    ExtractFrom(groups, 0)
  }

  /** The extraction loop: appends one value per group. */
  method ExtractParams(groups: seq<Capture>) returns (params: Params)
    ensures params == Extract(groups)
  {
    params := [];
    var i := 0;
    while i < |groups|
      invariant 0 <= i <= |groups|
      invariant params + ExtractFrom(groups, i) == Extract(groups)
    {
      var value := ParamAt(groups, i);
      assert params + ExtractFrom(groups, i) == (params + [value]) + ExtractFrom(groups, i + 1);
      params := params + [value];
      i := i + 1;
    }
    assert params + [] == params;
  }

  /** The value at position `k` of the extraction is the value read for group `k`. */
  lemma {:induction false} ExtractFromAt(groups: seq<Capture>, i: nat, k: nat)
    requires i <= k < |groups|
    ensures ExtractFrom(groups, i)[k - i] == ParamAt(groups, k)
    decreases k - i
  {
    var rest := ExtractFrom(groups, i + 1);
    assert ExtractFrom(groups, i) == [ParamAt(groups, i)] + rest;
    if i < k {
      ExtractFromAt(groups, i + 1, k);
      assert ([ParamAt(groups, i)] + rest)[k - i] == rest[k - i - 1];
    } else {
      assert ([ParamAt(groups, i)] + rest)[0] == ParamAt(groups, k);
    }
  }

  /** Position `k` of the extraction holds the value read for group `k`. */
  lemma ExtractAt(groups: seq<Capture>, k: nat)
    requires k < |groups|
    ensures Extract(groups)[k] == ParamAt(groups, k)
  {
    ExtractFromAt(groups, 0, k);
  }

  /** Every value read is free of slashes at both ends. */
  lemma ExtractTrimmed(groups: seq<Capture>, k: nat)
    requires k < |groups| && Extract(groups)[k].Some?
    ensures SlashFreeEnds(Extract(groups)[k].value)
  {
    ExtractAt(groups, k);
    var g := groups[k];
    if k + 1 < |groups| && groups[k + 1].offset > -1 {
      TrimSlashFree(Substr0(g.text, groups[k + 1].offset - g.offset));
    } else {
      TrimSlashFree(g.text);
    }
  }

  /**
   * A parent group whose next group (its first nested group) starts inside
   * it gets only the part of the path from its own start to that group's
   * start, trimmed.
   */
  lemma ExtractNestedParent(path: string, groups: seq<Capture>, k: nat)
    requires InPath(path, groups)
    requires k + 1 < |groups|
    requires 0 <= groups[k].offset <= groups[k + 1].offset <= groups[k].offset + |groups[k].text|
    ensures Extract(groups)[k] == Some(TrimSlashes(path[groups[k].offset..groups[k + 1].offset]))
  {
    ExtractAt(groups, k);
    var g := groups[k];
    var cut := groups[k + 1].offset - g.offset;
    Substr0Prefix(g.text, cut);
    assert Substr0(g.text, cut) == g.text[..cut];
    assert path[g.offset..g.offset + |g.text|][..cut] == path[g.offset..g.offset + cut];
  }

  /** A group whose next group starts at or after its end keeps its whole text, trimmed. */
  lemma ExtractSiblingWhole(groups: seq<Capture>, k: nat)
    requires k + 1 < |groups|
    requires groups[k].offset >= 0
    requires groups[k + 1].offset >= groups[k].offset + |groups[k].text|
    ensures Extract(groups)[k] == Some(TrimSlashes(groups[k].text))
  {
    ExtractAt(groups, k);
  }

  /** Without a participating next group, the value is the trimmed text, or `null` for a non-participating group. */
  lemma ExtractWithoutNext(groups: seq<Capture>, k: nat)
    requires k < |groups|
    requires k + 1 == |groups| || groups[k + 1].offset <= -1
    ensures groups[k].offset != -1 ==> Extract(groups)[k] == Some(TrimSlashes(groups[k].text))
    ensures groups[k].offset == -1 ==> Extract(groups)[k] == None
  {
    ExtractAt(groups, k);
  }

  /** A value is `null` exactly when its group did not take part and no participating group follows it. */
  lemma ExtractNullIff(groups: seq<Capture>, k: nat)
    requires k < |groups|
    ensures Extract(groups)[k] == None <==>
      groups[k].offset == -1 && (k + 1 == |groups| || groups[k + 1].offset <= -1)
  {
    ExtractAt(groups, k);
  }

  /** A non-participating group followed by a participating one yields `""`, not `null`. */
  lemma ExtractAbsentBeforePresent(groups: seq<Capture>, k: nat)
    requires WellFormed(groups)
    requires k + 1 < |groups| && groups[k].offset == -1 && groups[k + 1].offset > -1
    ensures Extract(groups)[k] == Some("")
  {
    ExtractAt(groups, k);
    assert groups[k].text == "";
    assert TrimSlashes(Substr0("", groups[k + 1].offset + 1)) == TrimSlashes("");
    TrimUnique("", "", "");
    assert "" + "" + "" == "";
  }

  /** When no group took part, every value is `null`. */
  lemma ExtractNoneTookPart(groups: seq<Capture>)
    requires forall k :: 0 <= k < |groups| ==> groups[k].offset == -1
    ensures forall k :: 0 <= k < |groups| ==> Extract(groups)[k] == None
  {
    forall k | 0 <= k < |groups| ensures Extract(groups)[k] == None {
      ExtractAt(groups, k);
    }
  }

  /**
   * `/(.*)/page([0-9]+)` on `/hello/bramus/page3`: the first group is a
   * sibling of the second and keeps its whole text.
   */
  lemma ExtractSiblingsExample()
    ensures Extract([Capture("hello/bramus", 1), Capture("3", 18)]) == [Some("hello/bramus"), Some("3")]
  {
    var groups := [Capture("hello/bramus", 1), Capture("3", 18)];
    assert Substr0("hello/bramus", 17) == "hello/bramus";
    TrimUnique("", "hello/bramus", "");
    assert "" + "hello/bramus" + "" == "hello/bramus";
    TrimUnique("", "3", "");
    assert "" + "3" + "" == "3";
    assert Extract(groups)[0] == Some("hello/bramus");
    assert Extract(groups)[1] == Some("3");
  }

  /**
   * `/blog(/\d{4}(/\d{2}(/\d{2}(/[a-z0-9_-]+)?)?)?)?` on `/blog/1983/12`:
   * the year group is cut at the month group, and the two groups that did
   * not take part are `null`.
   */
  lemma ExtractNestedExample()
    ensures Extract([Capture("/1983/12", 5), Capture("/12", 10), Capture("", -1), Capture("", -1)])
      == [Some("1983"), Some("12"), None, None]
  {
    var groups := [Capture("/1983/12", 5), Capture("/12", 10), Capture("", -1), Capture("", -1)];
    BlogSegments();
    assert Extract(groups)[0] == Some("1983");
    assert Extract(groups)[1] == Some("12");
    assert Extract(groups)[2] == None;
    assert Extract(groups)[3] == None;
  }

  lemma BlogSegments()
    ensures TrimSlashes(Substr0("/1983/12", 10 - 5)) == "1983"
    ensures TrimSlashes("/12") == "12"
  {
    var year := Substr0("/1983/12", 5);
    assert year == "/1983" by {
      assert year == "/1983/12"[..5];
      assert year[0] == '/' && year[1] == '1' && year[2] == '9' && year[3] == '8' && year[4] == '3';
    }
    TrimUnique("/", "1983", "");
    assert "/" + "1983" + "" == "/1983";
    TrimUnique("/", "12", "");
    assert "/" + "12" + "" == "/12";
  }

  /** The same pattern on `/blog`: no group took part, so every value is `null`. */
  lemma ExtractOverviewExample()
    ensures Extract([Capture("", -1), Capture("", -1), Capture("", -1), Capture("", -1)])
      == [None, None, None, None]
  {
    var groups := [Capture("", -1), Capture("", -1), Capture("", -1), Capture("", -1)];
    ExtractNoneTookPart(groups);
  }
}
