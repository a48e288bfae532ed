/**
 * The system-dependent strings of a catalogue: a first pass over the pairs counts those that are defined on this
 * system and the memory they need, a second pass builds them in that memory.
 */
module SysdepStrings {
  import opened Options

  /** A run of characters of the file, followed by a system-dependent value or, at the end, by nothing. */
  datatype Segment = Segment(size: nat, ref: Option<nat>)

  datatype SysdepString = SysdepString(text: string, segments: seq<Segment>)

  datatype Pair = Pair(orig: SysdepString, trans: SysdepString)

  /** What this system has for each system-dependent segment: a string, or nothing. */
  type Values = seq<Option<string>>

  /** What a pass over a string finds: a reference outside the table, an undefined value, or the size it needs. */
  datatype Scanned = BadReference | Undefined | Defined(need: nat)

  /** The list of segments ends where the first one without a reference is. */
  predicate Ended(segs: seq<Segment>) {
    segs != [] && if segs[0].ref == None then |segs| == 1 else Ended(segs[1..])
  }

  function StaticSize(segs: seq<Segment>): nat {
    if segs == [] then 0 else segs[0].size + StaticSize(segs[1..])
  }

  /** What the file format promises of a string. */
  predicate WellFormed(s: SysdepString) {
    Ended(s.segments) && StaticSize(s.segments) <= |s.text|
  }

  function Scan(segs: seq<Segment>, values: Values): Scanned
    requires Ended(segs)
  {
    if segs[0].ref == None then Defined(segs[0].size)
    else
      var ref := segs[0].ref.value;
      if ref >= |values| then BadReference
      else if values[ref] == None then Undefined
      else
        match Scan(segs[1..], values)
        case Defined(need) => Defined(segs[0].size + |values[ref].value| + need)
        case other => other
  }

  /** A string that is one piece of the file needs no memory. */
  function ScanString(s: SysdepString, values: Values): Scanned
    requires WellFormed(s)
  {
    if s.segments[0].ref == None then Defined(0) else Scan(s.segments, values)
  }

  /** The string itself: the pieces of the file with the values in between. */
  function Expand(segs: seq<Segment>, text: string, values: Values): string
    requires Ended(segs) && StaticSize(segs) <= |text| && Scan(segs, values).Defined?
  {
    if segs[0].ref == None then text[..segs[0].size]
    else text[..segs[0].size] + values[segs[0].ref.value].value + Expand(segs[1..], text[segs[0].size..], values)
  }

  lemma {:induction false} ExpandNeeds(segs: seq<Segment>, text: string, values: Values)
    requires Ended(segs) && StaticSize(segs) <= |text| && Scan(segs, values).Defined?
    ensures |Expand(segs, text, values)| == Scan(segs, values).need
  {
    if segs[0].ref != None {
      ExpandNeeds(segs[1..], text[segs[0].size..], values);
    }
  }

  predicate Valid(s: SysdepString, values: Values) {
    WellFormed(s) && Scan(s.segments, values).Defined?
  }

  function StringOf(s: SysdepString, values: Values): string
    requires Valid(s, values)
  {
    Expand(s.segments, s.text, values)
  }

  function Plus(need: nat, r: Scanned): Scanned {
    if r.Defined? then Defined(need + r.need) else r
  }

  /** The first pass over one string. */
  method Measure(s: SysdepString, values: Values) returns (r: Scanned)
    requires WellFormed(s)
    ensures r == ScanString(s, values)
  {
    var need: nat := 0;
    if s.segments[0].ref != None {
      var p := 0;
      while true
        invariant 0 <= p < |s.segments| && Ended(s.segments[p..])
        invariant Plus(need, Scan(s.segments[p..], values)) == Scan(s.segments, values)
        decreases |s.segments| - p
      {
        var segment := s.segments[p];
        need := need + segment.size;
        if segment.ref == None {
          break;
        }
        var ref := segment.ref.value;
        if ref >= |values| {
          return BadReference;
        }
        if values[ref] == None {
          return Undefined;
        }
        need := need + |values[ref].value|;
        assert s.segments[p..][1..] == s.segments[p + 1..];
        p := p + 1;
      }
    }
    return Defined(need);
  }

  /** The check the second pass makes; it needs no test of the references, for the first pass has seen them. */
  method IsDefined(s: SysdepString, values: Values) returns (valid: bool)
    requires WellFormed(s) && ScanString(s, values) != BadReference
    ensures valid <==> ScanString(s, values).Defined?
  {
    if s.segments[0].ref != None {
      var p := 0;
      while true
        invariant 0 <= p < |s.segments| && Ended(s.segments[p..])
        invariant Scan(s.segments[p..], values) != BadReference
        invariant Scan(s.segments[p..], values).Defined? <==> Scan(s.segments, values).Defined?
        decreases |s.segments| - p
      {
        if s.segments[p].ref == None {
          break;
        }
        var ref := s.segments[p].ref.value;
        if values[ref] == None {
          return false;
        }
        assert s.segments[p..][1..] == s.segments[p + 1..];
        p := p + 1;
      }
    }
    return true;
  }

  /** memcpy, from a string into the memory from start on. */
  method Copy(mem: array<char>, start: nat, piece: string) returns (end: nat)
    requires start + |piece| <= mem.Length
    modifies mem
    ensures end == start + |piece| && mem[start..end] == piece
    ensures mem[..start] == old(mem[..start]) && mem[end..] == old(mem[end..])
  {
    var i := 0;
    while i < |piece|
      invariant i <= |piece| && mem[start..start + i] == piece[..i]
      invariant mem[..start] == old(mem[..start]) && mem[start + |piece|..] == old(mem[start + |piece|..])
    {
      mem[start + i] := piece[i];
      i := i + 1;
    }
    end := start + |piece|;
  }

  /** Copies a piece behind what has been written since start. */
  method Append(mem: array<char>, ghost start: nat, end: nat, piece: string, ghost done: string) returns (next: nat)
    requires start <= end && end + |piece| <= mem.Length && mem[start..end] == done
    modifies mem
    ensures next == end + |piece| && mem[start..next] == done + piece && mem[..start] == old(mem[..start])
  {
    next := Copy(mem, end, piece);
    assert mem[..end] == old(mem[..end]);
    assert mem[start..end] == mem[..end][start..] && mem[..start] == mem[..end][..start];
    assert old(mem[..start]) == old(mem[..end])[..start];
    assert done == old(mem[..end])[start..];
    assert mem[start..next] == mem[start..end] + mem[end..next];
  }

  lemma RoomForStep(segs: seq<Segment>, text: string, values: Values)
    requires Ended(segs) && StaticSize(segs) <= |text| && Scan(segs, values).Defined?
    ensures segs[0].size <= |Expand(segs, text, values)|
    ensures segs[0].ref != None ==>
      && segs[0].ref.value < |values| && values[segs[0].ref.value] != None
      && segs[0].size + |values[segs[0].ref.value].value| <= |Expand(segs, text, values)|
  {
  }

  /** The string from the second segment on. */
  lemma ExpandStep(segs: seq<Segment>, text: string, values: Values, done: string)
    requires Ended(segs) && StaticSize(segs) <= |text| && Scan(segs, values).Defined? && segs[0].ref != None
    ensures
      && segs[0].ref.value < |values| && values[segs[0].ref.value] != None && segs[0].size <= |text|
      && var value, rest := values[segs[0].ref.value].value, text[segs[0].size..];
      && Ended(segs[1..]) && StaticSize(segs[1..]) <= |rest| && Scan(segs[1..], values).Defined?
      && done + Expand(segs, text, values) ==
         done + text[..segs[0].size] + value + Expand(segs[1..], rest, values)
  {
  }

  /** Builds a string of more than one piece in the memory from start on. */
  method Concatenate(s: SysdepString, values: Values, mem: array<char>, start: nat) returns (end: nat)
    requires Valid(s, values) && start + |StringOf(s, values)| <= mem.Length
    modifies mem
    ensures end == start + |StringOf(s, values)| && mem[start..end] == StringOf(s, values)
    ensures mem[..start] == old(mem[..start])
  {
    end := start;
    var text := s.text;
    var p := 0;
    ghost var whole := StringOf(s, values);
    ghost var done := "";
    while true
      invariant 0 <= p < |s.segments| && Ended(s.segments[p..]) && StaticSize(s.segments[p..]) <= |text|
      invariant Scan(s.segments[p..], values).Defined?
      invariant done + Expand(s.segments[p..], text, values) == whole
      invariant end == start + |done| && mem[start..end] == done
      invariant mem[..start] == old(mem[..start])
      decreases |s.segments| - p
    {
      ghost var segs := s.segments[p..];
      var segment := s.segments[p];
      RoomForStep(segs, text, values);
      end := Append(mem, start, end, text[..segment.size], done);
      if segment.ref == None {
        break;
      }
      ExpandStep(segs, text, values, done);
      assert segs[1..] == s.segments[p + 1..];
      var value := values[segment.ref.value].value;
      end := Append(mem, start, end, value, done + text[..segment.size]);
      done := done + text[..segment.size] + value;
      text := text[segment.size..];
      p := p + 1;
    }
  }

  /** Bytes of a table entry for a system-dependent string, and of an entry of the hash table. */
  const DESC_SIZE := 16
  const NLS_SIZE := 4

  function ScanPair(p: Pair, values: Values): Scanned
    requires WellFormed(p.orig) && WellFormed(p.trans)
  {
    match ScanString(p.orig, values)
    case Defined(need) => Plus(need, ScanString(p.trans, values))
    case other => other
  }

  predicate AllWellFormed(pairs: seq<Pair>) {
    forall i :: 0 <= i < |pairs| ==> WellFormed(pairs[i].orig) && WellFormed(pairs[i].trans)
  }

  /** A file is refused if a pass over one of its pairs meets a reference outside the table. */
  predicate Refused(pairs: seq<Pair>, values: Values)
    requires AllWellFormed(pairs)
  {
    exists i :: 0 <= i < |pairs| && ScanPair(pairs[i], values) == BadReference
  }

  /** The strings of the pairs that are defined on this system, in order. */
  function Strings(pairs: seq<Pair>, values: Values): seq<(string, string)>
    requires AllWellFormed(pairs)
  {
    if pairs == [] then []
    else
      var p := pairs[|pairs| - 1];
      Strings(pairs[..|pairs| - 1], values) +
      if ScanPair(p, values).Defined? then
        SingleIsValid(p.orig, values);
        SingleIsValid(p.trans, values);
        [(StringOf(p.orig, values), StringOf(p.trans, values))]
      else []
  }

  lemma SingleIsValid(s: SysdepString, values: Values)
    requires WellFormed(s)
    ensures ScanString(s, values).Defined? <==> Valid(s, values)
  {
  }

  /** The characters the second pass will write. */
  function Need(pairs: seq<Pair>, values: Values): nat
    requires AllWellFormed(pairs)
  {
    if pairs == [] then 0
    else
      var r := ScanPair(pairs[|pairs| - 1], values);
      Need(pairs[..|pairs| - 1], values) + if r.Defined? then r.need else 0
  }

  function MemNeed(pairs: seq<Pair>, values: Values, hashSize: nat): nat
    requires AllWellFormed(pairs)
  {
    hashSize * NLS_SIZE + Need(pairs, values) + 2 * |Strings(pairs, values)| * DESC_SIZE
  }

  lemma PassStep(pairs: seq<Pair>, values: Values, i: nat)
    requires AllWellFormed(pairs) && i < |pairs|
    ensures pairs[..i + 1][..i] == pairs[..i] && pairs[..i + 1][i] == pairs[i]
    ensures AllWellFormed(pairs[..i]) && AllWellFormed(pairs[..i + 1])
    ensures Need(pairs[..i + 1], values) ==
      Need(pairs[..i], values) + if ScanPair(pairs[i], values).Defined? then ScanPair(pairs[i], values).need else 0
    ensures |Strings(pairs[..i + 1], values)| ==
      |Strings(pairs[..i], values)| + if ScanPair(pairs[i], values).Defined? then 1 else 0
  {
    assert pairs[..i + 1][..i] == pairs[..i];
  }

  /** The first pass over a pair; the second string is not looked at if the first is undefined. */
  method MeasurePair(p: Pair, values: Values) returns (r: Scanned)
    requires WellFormed(p.orig) && WellFormed(p.trans)
    ensures r == ScanPair(p, values)
  {
    r := Measure(p.orig, values);
    if r.Defined? {
      var second := Measure(p.trans, values);
      r := Plus(r.need, second);
    }
  }

  /** The loop of the first pass. */
  method CountPairs(pairs: seq<Pair>, values: Values) returns (ok: bool, count: nat, need: nat)
    requires AllWellFormed(pairs)
    ensures ok <==> !Refused(pairs, values)
    ensures ok ==> count == |Strings(pairs, values)| && need == Need(pairs, values)
  {
    count, need := 0, 0;
    var i := 0;
    while i < |pairs|
      invariant i <= |pairs| && forall m :: 0 <= m < i ==> ScanPair(pairs[m], values) != BadReference
      invariant AllWellFormed(pairs[..i])
      invariant count == |Strings(pairs[..i], values)| && need == Need(pairs[..i], values)
    {
      PassStep(pairs, values, i);
      var r := MeasurePair(pairs[i], values);
      if r == BadReference {
        return false, 0, 0;
      }
      if r.Defined? {
        count := count + 1;
        need := need + r.need;
      }
      i := i + 1;
    }
    assert pairs[..|pairs|] == pairs;
    ok := true;
  }

  /** The first pass: how many pairs are defined, and the bytes needed for them and for the tables. */
  method FirstPass(pairs: seq<Pair>, values: Values, hashSize: nat) returns (ok: bool, count: nat, memneed: nat)
    requires AllWellFormed(pairs)
    ensures ok <==> !Refused(pairs, values)
    ensures ok ==> count == |Strings(pairs, values)| && memneed == MemNeed(pairs, values, hashSize)
  {
    var need;
    ok, count, need := CountPairs(pairs, values);
    memneed := hashSize * NLS_SIZE + need;
    memneed := memneed + 2 * count * DESC_SIZE;
  }

  /** Where a string of a table is: in the file, or in the new memory. */
  datatype Place = InFile(text: string) | InMemory(offset: nat)

  datatype Desc = Desc(length: nat, place: Place)

  /** The table entry describes the string, whose characters are among the first of the memory. */
  predicate Describes(d: Desc, mem: seq<char>, s: string) {
    match d.place
    case InFile(text) => d.length <= |text| && text[..d.length] == s
    case InMemory(offset) => offset + d.length <= |mem| && mem[offset..offset + d.length] == s
  }

  lemma DescribesStill(d: Desc, mem: seq<char>, n: nat, s: string)
    requires n <= |mem| && Describes(d, mem[..n], s)
    ensures Describes(d, mem, s)
  {
    if d.place.InMemory? {
      var o := d.place.offset;
      assert mem[..n][o..o + d.length] == mem[o..o + d.length];
    }
  }

  /** The second pass on one string: its entry, and the memory it takes. */
  method BuildString(s: SysdepString, values: Values, mem: array<char>, start: nat) returns (d: Desc, end: nat)
    requires WellFormed(s) && ScanString(s, values).Defined?
    requires start + ScanString(s, values).need <= mem.Length
    modifies mem
    ensures Valid(s, values)
    ensures end == start + ScanString(s, values).need && Describes(d, mem[..end], StringOf(s, values))
    ensures mem[..start] == old(mem[..start])
  {
    SingleIsValid(s, values);
    ExpandNeeds(s.segments, s.text, values);
    if s.segments[0].ref == None {
      d := Desc(s.segments[0].size, InFile(s.text));
      end := start;
    } else {
      end := Concatenate(s, values, mem, start);
      d := Desc(end - start, InMemory(start));
      assert mem[..end][start..end] == mem[start..end];
    }
  }

  /** The entries of the two tables for the pairs that have been built. */
  predicate Built(strings: seq<(string, string)>, orig: seq<Desc>, trans: seq<Desc>, mem: seq<char>) {
    && |orig| == |trans| == |strings|
    && forall k :: 0 <= k < |strings| ==>
      Describes(orig[k], mem, strings[k].0) && Describes(trans[k], mem, strings[k].1)
  }

  /** Room and numbers only grow along the list of pairs. */
  lemma {:induction false} PassesGrow(pairs: seq<Pair>, values: Values, i: nat)
    requires AllWellFormed(pairs) && i <= |pairs|
    ensures AllWellFormed(pairs[..i])
    ensures Need(pairs[..i], values) <= Need(pairs, values)
    ensures |Strings(pairs[..i], values)| <= |Strings(pairs, values)|
    decreases |pairs| - i
  {
    if i < |pairs| {
      PassesGrow(pairs, values, i + 1);
      PassStep(pairs, values, i);
    } else {
      assert pairs[..i] == pairs;
    }
  }

  lemma StringsStep(pairs: seq<Pair>, values: Values, i: nat)
    requires AllWellFormed(pairs) && i < |pairs|
    ensures AllWellFormed(pairs[..i]) && AllWellFormed(pairs[..i + 1])
    ensures
      var p := pairs[i];
      if ScanPair(p, values).Defined? then
        && Valid(p.orig, values) && Valid(p.trans, values)
        && Strings(pairs[..i + 1], values) ==
           Strings(pairs[..i], values) + [(StringOf(p.orig, values), StringOf(p.trans, values))]
      else Strings(pairs[..i + 1], values) == Strings(pairs[..i], values)
  {
    PassStep(pairs, values, i);
    SingleIsValid(pairs[i].orig, values);
    SingleIsValid(pairs[i].trans, values);
  }

  lemma BuiltStep(
      strings: seq<(string, string)>, orig: seq<Desc>, trans: seq<Desc>, mem: seq<char>, n: nat,
      d: Desc, e: Desc, x: string, y: string)
    requires n <= |mem| && Built(strings, orig, trans, mem[..n]) && Describes(d, mem, x) && Describes(e, mem, y)
    ensures Built(strings + [(x, y)], orig + [d], trans + [e], mem)
  {
    forall k | 0 <= k < |strings|
      ensures Describes(orig[k], mem, strings[k].0) && Describes(trans[k], mem, strings[k].1)
    {
      DescribesStill(orig[k], mem, n, strings[k].0);
      DescribesStill(trans[k], mem, n, strings[k].1);
    }
  }

  /** Both strings of a pair. */
  method BuildPair(p: Pair, values: Values, mem: array<char>, start: nat) returns (d: Desc, e: Desc, end: nat)
    requires WellFormed(p.orig) && WellFormed(p.trans) && ScanPair(p, values).Defined?
    requires start + ScanPair(p, values).need <= mem.Length
    modifies mem
    ensures Valid(p.orig, values) && Valid(p.trans, values)
    ensures end == start + ScanPair(p, values).need && mem[..start] == old(mem[..start])
    ensures Describes(d, mem[..end], StringOf(p.orig, values)) && Describes(e, mem[..end], StringOf(p.trans, values))
  {
    var middle;
    d, middle := BuildString(p.orig, values, mem, start);
    ghost var before := mem[..middle];
    e, end := BuildString(p.trans, values, mem, middle);
    assert mem[..end][..middle] == mem[..middle] == before;
    DescribesStill(d, mem[..end], middle, StringOf(p.orig, values));
    assert mem[..start] == mem[..middle][..start] && before[..start] == old(mem[..start]);
  }

  /** The check of the second pass on a pair. */
  method PairIsDefined(p: Pair, values: Values) returns (valid: bool)
    requires WellFormed(p.orig) && WellFormed(p.trans) && ScanPair(p, values) != BadReference
    ensures valid <==> ScanPair(p, values).Defined?
  {
    valid := IsDefined(p.orig, values);
    if valid {
      valid := IsDefined(p.trans, values);
    }
  }

  /** The state of the second pass before pair i: what is built, and how far the memory is used. */
  predicate Progress(
      pairs: seq<Pair>, values: Values, i: nat,
      orig: seq<Desc>, trans: seq<Desc>, mem: seq<char>, base: nat)
    requires AllWellFormed(pairs) && i <= |pairs|
  {
    && AllWellFormed(pairs[..i])
    && |mem| == base + Need(pairs[..i], values)
    && Built(Strings(pairs[..i], values), orig, trans, mem)
  }

  lemma ProgressSkips(
      pairs: seq<Pair>, values: Values, i: nat,
      orig: seq<Desc>, trans: seq<Desc>, mem: seq<char>, base: nat)
    requires AllWellFormed(pairs) && i < |pairs| && !ScanPair(pairs[i], values).Defined?
    requires Progress(pairs, values, i, orig, trans, mem, base)
    ensures Progress(pairs, values, i + 1, orig, trans, mem, base)
  {
    PassStep(pairs, values, i);
    StringsStep(pairs, values, i);
  }

  lemma ProgressBuilds(
      pairs: seq<Pair>, values: Values, i: nat,
      orig: seq<Desc>, trans: seq<Desc>, mem: seq<char>, base: nat, d: Desc, e: Desc, mem': seq<char>)
    requires AllWellFormed(pairs) && i < |pairs| && ScanPair(pairs[i], values).Defined?
    requires Progress(pairs, values, i, orig, trans, mem, base)
    requires |mem| + ScanPair(pairs[i], values).need == |mem'| && mem'[..|mem|] == mem
    requires Valid(pairs[i].orig, values) && Describes(d, mem', StringOf(pairs[i].orig, values))
    requires Valid(pairs[i].trans, values) && Describes(e, mem', StringOf(pairs[i].trans, values))
    ensures Progress(pairs, values, i + 1, orig + [d], trans + [e], mem', base)
  {
    PassStep(pairs, values, i);
    StringsStep(pairs, values, i);
    BuiltStep(Strings(pairs[..i], values), orig, trans, mem', |mem|, d, e,
      StringOf(pairs[i].orig, values), StringOf(pairs[i].trans, values));
  }

  /** A pair that is defined is one of those the first pass counted. */
  lemma NextFits(pairs: seq<Pair>, values: Values, i: nat)
    requires AllWellFormed(pairs) && i < |pairs| && ScanPair(pairs[i], values).Defined?
    ensures AllWellFormed(pairs[..i]) && |Strings(pairs[..i], values)| < |Strings(pairs, values)|
    ensures Need(pairs[..i], values) + ScanPair(pairs[i], values).need <= Need(pairs, values)
  {
    PassesGrow(pairs, values, i + 1);
    PassStep(pairs, values, i);
  }

  /**
   * The second pass.  It finds as many pairs as the first one counted, so its check for that cannot fail; it builds
   * their strings in order, and it uses exactly the memory the first pass asked for.
   */
  method SecondPass(pairs: seq<Pair>, values: Values, hashSize: nat, count: nat, memneed: nat)
      returns (orig: array<Desc>, trans: array<Desc>, mem: array<char>, k: nat, end: nat)
    requires AllWellFormed(pairs) && !Refused(pairs, values)
    requires count == |Strings(pairs, values)| && memneed == MemNeed(pairs, values, hashSize)
    ensures k == count == orig.Length == trans.Length && end == memneed == mem.Length
    ensures Built(Strings(pairs, values), orig[..], trans[..], mem[..])
  {
    mem := new char[memneed](_ => '\0');
    orig := new Desc[count](_ => Desc(0, InMemory(0)));
    trans := new Desc[count](_ => Desc(0, InMemory(0)));
    ghost var base := 2 * count * DESC_SIZE + hashSize * NLS_SIZE;
    end := count * DESC_SIZE;
    end := end + count * DESC_SIZE;
    end := end + hashSize * NLS_SIZE;
    k := 0;
    var i := 0;
    while i < |pairs|
      invariant i <= |pairs| && k <= count && base <= end <= memneed && orig != trans
      invariant fresh(orig) && fresh(trans) && fresh(mem)
      invariant mem.Length == memneed && orig.Length == trans.Length == count
      invariant Progress(pairs, values, i, orig[..k], trans[..k], mem[..end], base)
    {
      k, end := FillTurn(pairs, values, i, orig, trans, k, mem, end, base);
      i := i + 1;
    }
    assert pairs[..|pairs|] == pairs;
    assert orig[..k] == orig[..] && trans[..k] == trans[..] && mem[..end] == mem[..];
  }

  /** One turn of the second pass. */
  method FillTurn(
      pairs: seq<Pair>, values: Values, i: nat, orig: array<Desc>, trans: array<Desc>, k0: nat,
      mem: array<char>, start: nat, ghost base: nat)
      returns (k: nat, end: nat)
    requires AllWellFormed(pairs) && !Refused(pairs, values) && i < |pairs|
    requires orig != trans && orig.Length == trans.Length == |Strings(pairs, values)| && k0 <= orig.Length
    requires start <= mem.Length == base + Need(pairs, values)
    requires Progress(pairs, values, i, orig[..k0], trans[..k0], mem[..start], base)
    modifies orig, trans, mem
    ensures k <= orig.Length && start <= end <= mem.Length
    ensures Progress(pairs, values, i + 1, orig[..k], trans[..k], mem[..end], base)
  {
    k, end := k0, start;
    assert ScanPair(pairs[i], values) != BadReference;
    var valid := PairIsDefined(pairs[i], values);
    if valid {
      NextFits(pairs, values, i);
      k, end := BuildNext(pairs, values, i, orig, trans, k, mem, end, base);
    } else {
      ProgressSkips(pairs, values, i, orig[..k], trans[..k], mem[..end], base);
    }
  }

  method BuildNext(
      pairs: seq<Pair>, values: Values, i: nat, orig: array<Desc>, trans: array<Desc>, k0: nat,
      mem: array<char>, start: nat, ghost base: nat)
      returns (k: nat, end: nat)
    requires AllWellFormed(pairs) && i < |pairs| && ScanPair(pairs[i], values).Defined?
    requires orig != trans && k0 < orig.Length == trans.Length && start <= mem.Length
    requires start + ScanPair(pairs[i], values).need <= mem.Length
    requires Progress(pairs, values, i, orig[..k0], trans[..k0], mem[..start], base)
    modifies orig, trans, mem
    ensures k == k0 + 1 && end == start + ScanPair(pairs[i], values).need
    ensures Progress(pairs, values, i + 1, orig[..k], trans[..k], mem[..end], base)
  {
    ghost var before, os, ts := mem[..start], orig[..k0], trans[..k0];
    var d, e;
    d, e, end := BuildPair(pairs[i], values, mem, start);
    orig[k0], trans[k0] := d, e;
    k := k0 + 1;
    assert mem[..end][..start] == before;
    assert orig[..k] == os + [d] && trans[..k] == ts + [e];
    ProgressBuilds(pairs, values, i, os, ts, before, base, d, e, mem[..end]);
  }
}
