/** Which files a locale file inherits from, by the bits of their masks, and in which order. */
module LocaleSuccessors {
  import opened LocaleMasks
  import opened LocaleFiles

  /** The masks a file has successors for, by their bits: some part is missing, or there are several directories. */
  predicate Succeeds(cnt: nat, mask: nat, several: bool) {
    && cnt % 2 <= mask % 2 && cnt / 2 % 2 <= mask / 2 % 2 && cnt / 4 % 2 <= mask / 4 % 2
    && cnt / 8 % 2 <= mask / 8 % 2 && !(cnt % 2 == 1 && cnt / 2 % 2 == 1) && (several || cnt != mask)
  }

  /** The names for some masks, in order: in each directory of several, or in the one there is. */
  function Listed(dirs: seq<string>, ms: seq<Mask>, loc: Locale): seq<string> {
    if ms == [] then []
    else Listed(dirs, ms[..|ms| - 1], loc) + InEach(dirs, ms[|ms| - 1], loc)
  }

  function InEach(dirs: seq<string>, m: Mask, loc: Locale): (names: seq<string>)
    ensures |names| == if |dirs| > 1 then |dirs| else 1
    ensures forall i :: 0 <= i < |names| ==> names[i] == Name(if |dirs| > 1 then [dirs[i]] else dirs, m, loc)
  {
    if |dirs| > 1 then seq(|dirs|, i requires 0 <= i < |dirs| => Name([dirs[i]], m, loc)) else [Name(dirs, m, loc)]
  }

  lemma BitsDominate(cnt: Mask, mask: Mask)
    requires cnt % 2 <= mask % 2 && cnt / 2 % 2 <= mask / 2 % 2
    requires cnt / 4 % 2 <= mask / 4 % 2 && cnt / 8 % 2 <= mask / 8 % 2
    ensures Dominated(cnt, mask)
  {
    var c2, m2 := cnt / 2, mask / 2;
    var c4, m4 := cnt / 4, mask / 4;
    assert c4 == c2 / 2 && m4 == m2 / 2 && cnt / 8 == c4 / 2 && mask / 8 == m4 / 2;
    assert Dominated(cnt / 16, mask / 16);
    assert Dominated(cnt / 8, mask / 8);
    assert Dominated(c4, m4);
    assert Dominated(c2, m2);
  }

  lemma SucceedsIf(dirs: seq<string>, cnt: Mask, mask: Mask)
    ensures Succeeds(cnt, mask, |dirs| > 1) <==> cnt <= Top(dirs, mask) && Inherits(cnt, mask)
  {
    if Succeeds(cnt, mask, |dirs| > 1) {
      BitsDominate(cnt, mask);
      BitsOf(cnt);
      BitsOf(mask);
    }
    if Inherits(cnt, mask) {
      DominatedChain(cnt, mask);
    }
  }

  lemma {:induction false} SuccessorsFrom(dirs: seq<string>, mask: Mask, loc: Locale, k: nat) returns (ms: seq<Mask>)
    requires k <= Top(dirs, mask) + 1
    ensures forall i, j :: 0 <= i < j < |ms| ==> ms[i] > ms[j]
    ensures forall c: Mask :: c in ms <==> k <= c <= Top(dirs, mask) && Inherits(c, mask)
    ensures NamesFrom(dirs, mask, loc, k) == Listed(dirs, ms, loc)
    decreases Top(dirs, mask) + 1 - k
  {
    if k > Top(dirs, mask) {
      ms := [];
    } else {
      var above := SuccessorsFrom(dirs, mask, loc, k + 1);
      ms := above;
      if Inherits(k, mask) {
        forall i | 0 <= i < |above|
          ensures above[i] > k
        {
          assert above[i] in above;
        }
        ms := above + [k];
        assert ms[|above|] == k;
        ListedSnoc(dirs, above, k, loc);
        assert NamesAt(dirs, k, mask, loc) == InEach(dirs, k, loc);
      }
    }
  }

  lemma ListedSnoc(dirs: seq<string>, ms: seq<Mask>, m: Mask, loc: Locale)
    ensures Listed(dirs, ms + [m], loc) == Listed(dirs, ms, loc) + InEach(dirs, m, loc)
  {
    assert (ms + [m])[..|ms|] == ms;
  }

  /**
   * The successors of a file are those for just these masks, the greater masks first, so that the modifier is the first
   * part to be dropped, and the normalized codeset the last.
   */
  lemma SuccessorsAre(dirs: seq<string>, mask: Mask, loc: Locale) returns (ms: seq<Mask>)
    ensures forall i, j :: 0 <= i < j < |ms| ==> ms[i] > ms[j]
    ensures forall c: Mask :: c in ms <==> Succeeds(c, mask, |dirs| > 1)
    ensures NamesFrom(dirs, mask, loc, 0) == Listed(dirs, ms, loc)
  {
    ms := SuccessorsFrom(dirs, mask, loc, 0);
    forall c: Mask
      ensures c in ms <==> Succeeds(c, mask, |dirs| > 1)
    {
      SucceedsIf(dirs, c, mask);
    }
  }
}
