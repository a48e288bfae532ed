/** What the passes over system-dependent strings find and build, segment by segment. */
module SysdepMeaning {
  import opened Options
  import opened SysdepStrings

  /** The segment refers to an entry of the table, or to none. */
  predicate InTable(seg: Segment, values: Values) {
    seg.ref.Some? ==> seg.ref.value < |values|
  }

  predicate HasValue(seg: Segment, values: Values) {
    InTable(seg, values) && (seg.ref.Some? ==> values[seg.ref.value].Some?)
  }

  /** The value behind the piece of a segment; the last one has none. */
  function ValueOf(seg: Segment, values: Values): string
    requires HasValue(seg, values)
  {
    if seg.ref.Some? then values[seg.ref.value].value else ""
  }

  predicate AllHaveValues(segs: seq<Segment>, values: Values) {
    forall k :: 0 <= k < |segs| ==> HasValue(segs[k], values)
  }

  /** The first segment without a value refers to no entry of the table. */
  predicate MeetsBadReference(segs: seq<Segment>, values: Values) {
    exists k :: 0 <= k < |segs| && !InTable(segs[k], values) && AllHaveValues(segs[..k], values)
  }

  function ValuesSize(segs: seq<Segment>, values: Values): nat
    requires AllHaveValues(segs, values)
  {
    if segs == [] then 0 else |ValueOf(segs[0], values)| + ValuesSize(segs[1..], values)
  }

  /** What a pass over the segments finds. */
  lemma {:induction false} ScanFinds(segs: seq<Segment>, values: Values)
    requires Ended(segs)
    ensures Scan(segs, values).Defined? <==> AllHaveValues(segs, values)
    ensures Scan(segs, values) == BadReference <==> MeetsBadReference(segs, values)
    ensures AllHaveValues(segs, values) ==> Scan(segs, values).need == StaticSize(segs) + ValuesSize(segs, values)
  {
    var rest := segs[1..];
    assert segs == [segs[0]] + rest;
    if segs[0].ref == Option.None {
      assert rest == [];
    } else {
      ScanFinds(rest, values);
      if HasValue(segs[0], values) {
        RestMeets(segs[0], rest, values);
      } else {
        assert segs[..0] == [];
        assert forall k :: 0 < k <= |segs| ==> segs[..k][0] == segs[0];
      }
    }
  }

  lemma RestMeets(seg: Segment, rest: seq<Segment>, values: Values)
    requires HasValue(seg, values)
    ensures AllHaveValues([seg] + rest, values) <==> AllHaveValues(rest, values)
    ensures MeetsBadReference([seg] + rest, values) <==> MeetsBadReference(rest, values)
  {
    var segs := [seg] + rest;
    assert forall k :: 0 <= k < |rest| ==> segs[k + 1] == rest[k] && segs[..k + 1] == [seg] + rest[..k];
    forall k | 0 <= k <= |rest|
      ensures AllHaveValues([seg] + rest[..k], values) <==> AllHaveValues(rest[..k], values)
    {
      assert forall j :: 0 <= j < k ==> ([seg] + rest[..k])[j + 1] == rest[..k][j];
    }
    assert [seg] + rest[..|rest|] == segs && rest[..|rest|] == rest;
    if MeetsBadReference(segs, values) {
      var k :| 0 <= k < |segs| && !InTable(segs[k], values) && AllHaveValues(segs[..k], values);
      assert !InTable(rest[k - 1], values) && AllHaveValues(rest[..k - 1], values);
    }
    if MeetsBadReference(rest, values) {
      var k :| 0 <= k < |rest| && !InTable(rest[k], values) && AllHaveValues(rest[..k], values);
      assert !InTable(segs[k + 1], values) && AllHaveValues(segs[..k + 1], values);
    }
  }

  /** At start in s stands the piece of the file at place at, with the value of the segment behind it. */
  predicate Stands(s: string, start: nat, seg: Segment, text: string, at: nat, values: Values)
    requires HasValue(seg, values)
  {
    var middle := start + seg.size;
    var end := middle + |ValueOf(seg, values)|;
    && at + seg.size <= |text| && end <= |s| && s[start..middle] == text[at..at + seg.size]
    && s[middle..end] == ValueOf(seg, values)
  }

  /** The same further on, in a longer string and a longer text. */
  lemma StandsLater(
      s: string, start: nat, seg: Segment, text: string, at: nat, values: Values,
      s': string, start': nat, text': string, at': nat)
    requires HasValue(seg, values) && Stands(s, start, seg, text, at, values)
    requires start <= start' && start' - start <= |s'| && s'[start' - start..] == s
    requires at <= at' && at' - at <= |text'| && text'[at' - at..] == text
    ensures Stands(s', start', seg, text', at', values)
  {
    var middle := start + seg.size;
    var end := middle + |ValueOf(seg, values)|;
    var n, m := at' - at, start' - start;
    assert s'[m..][start..middle] == s'[start'..middle + m];
    assert s'[m..][middle..end] == s'[middle + m..end + m];
    assert text'[n..][at..at + seg.size] == text'[at'..at' + seg.size];
  }

  lemma SizesFrom(segs: seq<Segment>, values: Values, k: nat)
    requires 0 < k <= |segs| && AllHaveValues(segs, values)
    ensures AllHaveValues(segs[..k], values) && AllHaveValues(segs[1..][..k - 1], values)
    ensures StaticSize(segs[..k]) == segs[0].size + StaticSize(segs[1..][..k - 1])
    ensures ValuesSize(segs[..k], values) == |ValueOf(segs[0], values)| + ValuesSize(segs[1..][..k - 1], values)
  {
    assert segs[..k][1..] == segs[1..][..k - 1];
  }

  /** The string that is built consists of the pieces of the file in their order, each with its value behind it. */
  lemma {:induction false} ExpandConsists(segs: seq<Segment>, text: string, values: Values, k: nat)
      returns (whole: string, at: nat, start: nat)
    requires Ended(segs) && StaticSize(segs) <= |text| && AllHaveValues(segs, values) && k < |segs|
    ensures Scan(segs, values).Defined? && AllHaveValues(segs[..k], values)
    ensures at == StaticSize(segs[..k]) && start == at + ValuesSize(segs[..k], values)
    ensures whole == Expand(segs, text, values) && Stands(whole, start, segs[k], text, at, values)
    decreases |segs|
  {
    ScanFinds(segs, values);
    whole := Expand(segs, text, values);
    if k > 0 {
      var part, at0, start0 := ExpandConsists(segs[1..], text[segs[0].size..], values, k - 1);
      at, start := at0 + segs[0].size, start0 + segs[0].size + |ValueOf(segs[0], values)|;
      SizesFrom(segs, values, k);
      HeadAndRest(segs, text, values, start - start0, part, whole);
      StandsLater(part, start0, segs[k], text[segs[0].size..], at0, values, whole, start, text, at);
    } else {
      HeadStands(segs, text, values, whole);
      at, start := 0, 0;
    }
  }

  lemma HeadAndRest(segs: seq<Segment>, text: string, values: Values, m: nat, part: string, whole: string)
    requires Ended(segs) && StaticSize(segs) <= |text| && Scan(segs, values).Defined? && |segs| > 1
    requires AllHaveValues(segs, values) && m == segs[0].size + |ValueOf(segs[0], values)|
    requires Scan(segs[1..], values).Defined? && part == Expand(segs[1..], text[segs[0].size..], values)
    requires whole == Expand(segs, text, values)
    ensures m <= |whole| && whole[m..] == part
  {
  }

  lemma HeadStands(segs: seq<Segment>, text: string, values: Values, whole: string)
    requires Ended(segs) && StaticSize(segs) <= |text| && Scan(segs, values).Defined? && AllHaveValues(segs, values)
    requires whole == Expand(segs, text, values)
    ensures Stands(whole, 0, segs[0], text, 0, values)
  {
  }

  /** And of nothing else. */
  lemma ExpandLength(segs: seq<Segment>, text: string, values: Values)
    requires Ended(segs) && StaticSize(segs) <= |text| && AllHaveValues(segs, values)
    ensures Scan(segs, values).Defined?
    ensures |Expand(segs, text, values)| == StaticSize(segs) + ValuesSize(segs, values)
  {
    ScanFinds(segs, values);
    ExpandNeeds(segs, text, values);
  }

  /** Both strings of a pair have all their values. */
  predicate PairDefined(p: Pair, values: Values) {
    AllHaveValues(p.orig.segments, values) && AllHaveValues(p.trans.segments, values)
  }

  lemma PairScan(p: Pair, values: Values)
    requires WellFormed(p.orig) && WellFormed(p.trans)
    ensures ScanPair(p, values).Defined? <==> PairDefined(p, values)
    ensures PairDefined(p, values) ==> Valid(p.orig, values) && Valid(p.trans, values)
  {
    ScanFinds(p.orig.segments, values);
    ScanFinds(p.trans.segments, values);
    SingleIsValid(p.orig, values);
    SingleIsValid(p.trans, values);
  }

  /** The pair of strings that a pair amounts to. */
  predicate Amounts(x: (string, string), p: Pair, values: Values) {
    Valid(p.orig, values) && Valid(p.trans, values) && x == (StringOf(p.orig, values), StringOf(p.trans, values))
  }

  /** The strings that are built are those of the pairs that are defined, in the order of the file. */
  lemma {:induction false} StringsAre(pairs: seq<Pair>, values: Values) returns (chosen: seq<nat>)
    requires AllWellFormed(pairs)
    ensures forall i, j :: 0 <= i < j < |chosen| ==> chosen[i] < chosen[j]
    ensures forall i :: 0 <= i < |chosen| ==> chosen[i] < |pairs|
    ensures forall i :: 0 <= i < |pairs| ==> (i in chosen <==> PairDefined(pairs[i], values))
    ensures |Strings(pairs, values)| == |chosen|
    ensures forall k :: 0 <= k < |chosen| ==> Amounts(Strings(pairs, values)[k], pairs[chosen[k]], values)
  {
    if pairs == [] {
      chosen := [];
    } else {
      var n := |pairs| - 1;
      var first := StringsAre(pairs[..n], values);
      PairScan(pairs[n], values);
      StringsStep(pairs, values, n);
      assert pairs[..n + 1] == pairs;
      assert forall i :: 0 <= i < n ==> pairs[..n][i] == pairs[i];
      chosen := first;
      if PairDefined(pairs[n], values) {
        chosen := first + [n];
        assert chosen[|first|] == n;
      }
    }
  }
}
