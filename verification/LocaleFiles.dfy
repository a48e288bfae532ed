/**
 * The list of locale files: each has a name made from a list of directories and the parts of a locale name, and
 * the less specific files it inherits from as successors.  Files are made once and kept in a list ordered by name.
 */
module LocaleFiles {
  import opened Arith
  import opened LocaleMasks

  /** The parts of a locale name, and the file looked for in each of its directories. */
  datatype Locale = Locale(
    language: string, territory: string, codeset: string, normalizedCodeset: string, modifier: string,
    filename: string)

  predicate Has(mask: nat, bit: nat)
    requires bit > 0
  {
    mask / bit % 2 == 1
  }

  /** argz_stringify, and "/" in place of the last separator. */
  function DirPrefix(dirs: seq<string>): string {
    if dirs == [] then "" else dirs[0] + (if |dirs| == 1 then "/" else ":" + DirPrefix(dirs[1..]))
  }

  /** The length of the list of directories, with a NUL behind each. */
  function DirLength(dirs: seq<string>): nat {
    if dirs == [] then 0 else |dirs[0]| + 1 + DirLength(dirs[1..])
  }

  lemma {:induction false} DirPrefixLength(dirs: seq<string>)
    ensures |DirPrefix(dirs)| == DirLength(dirs)
  {
    if dirs != [] {
      DirPrefixLength(dirs[1..]);
    }
  }

  function Part(mask: nat, bit: nat, mark: char, part: string): string
    requires bit > 0
  {
    if Has(mask, bit) then [mark] + part else ""
  }

  /** The locale with the parts that the mask says are present. */
  function LocaleName(mask: nat, loc: Locale): string {
    loc.language + Part(mask, XPG_TERRITORY, '_', loc.territory) + Part(mask, XPG_CODESET, '.', loc.codeset)
    + Part(mask, XPG_NORM_CODESET, '.', loc.normalizedCodeset) + Part(mask, XPG_MODIFIER, '@', loc.modifier)
  }

  /** The part of a file name behind the directories. */
  function Tail(mask: nat, loc: Locale): string {
    LocaleName(mask, loc) + "/" + loc.filename
  }

  function Name(dirs: seq<string>, mask: nat, loc: Locale): string {
    DirPrefix(dirs) + Tail(mask, loc)
  }

  /** A language that is an absolute path makes the directories irrelevant. */
  function Dirs(dirs: seq<string>, loc: Locale): seq<string> {
    if loc.language != "" && loc.language[0] == '/' then [] else dirs
  }

  predicate SameBits(cnt: nat, mask: nat) {
    && Has(cnt, 1) == Has(mask, 1) && Has(cnt, 2) == Has(mask, 2)
    && Has(cnt, 4) == Has(mask, 4) && Has(cnt, 8) == Has(mask, 8)
  }

  /** A mask is made of its four bits. */
  lemma BitsOf(m: Mask)
    ensures m == m % 2 + 2 * (m / 2 % 2) + 4 * (m / 4 % 2) + 8 * (m / 8 % 2)
  {
  }

  /** A dominated mask has its bits among those of the other. */
  lemma DominatedBits(cnt: Mask, mask: Mask)
    requires Dominated(cnt, mask)
    ensures Has(cnt, 1) ==> Has(mask, 1)
    ensures Has(cnt, 2) ==> Has(mask, 2)
    ensures Has(cnt, 4) ==> Has(mask, 4)
    ensures Has(cnt, 8) ==> Has(mask, 8)
    ensures SameBits(cnt, mask) ==> cnt == mask
  {
    DominatedChain(cnt, mask);
    BitsOf(cnt);
    BitsOf(mask);
  }

  lemma DominatedChain(cnt: Mask, mask: Mask)
    requires Dominated(cnt, mask)
    ensures cnt % 2 <= mask % 2 && cnt / 2 % 2 <= mask / 2 % 2
    ensures cnt / 4 % 2 <= mask / 4 % 2 && cnt / 8 % 2 <= mask / 8 % 2
  {
    var c2, m2 := cnt / 2, mask / 2;
    var c4, m4 := cnt / 4, mask / 4;
    assert c4 == c2 / 2 && m4 == m2 / 2 && cnt / 8 == c4 / 2 && mask / 8 == m4 / 2;
    DominatedStep(cnt, mask);
    DominatedStep(c2, m2);
    DominatedStep(c4, m4);
    DominatedStep(cnt / 8, mask / 8);
  }

  lemma DominatedStep(cnt: nat, mask: nat)
    requires Dominated(cnt, mask)
    ensures cnt % 2 <= mask % 2 && Dominated(cnt / 2, mask / 2)
  {
  }

  /** Dropping parts of the name makes it shorter. */
  lemma TailShortens(cnt: Mask, mask: Mask, loc: Locale)
    requires Dominated(cnt, mask)
    ensures |Tail(cnt, loc)| <= |Tail(mask, loc)|
    ensures cnt != mask ==> |Tail(cnt, loc)| < |Tail(mask, loc)|
  {
    DominatedBits(cnt, mask);
  }

  /** So does keeping one directory out of several. */
  lemma {:induction false} OneDirShortens(dirs: seq<string>, i: nat)
    requires i < |dirs|
    ensures |dirs[i]| + 1 <= DirLength(dirs)
    ensures |dirs| > 1 ==> |dirs[i]| + 1 < DirLength(dirs)
  {
    if i == 0 {
      if |dirs| > 1 {
        OneDirShortens(dirs[1..], 0);
      }
    } else {
      OneDirShortens(dirs[1..], i - 1);
    }
  }

  /** The size the code asks malloc for. */
  function NameSize(dirs: seq<string>, mask: nat, loc: Locale): nat {
    DirLength(dirs) + |loc.language|
    + (if Has(mask, XPG_TERRITORY) then |loc.territory| + 1 else 0)
    + (if Has(mask, XPG_CODESET) then |loc.codeset| + 1 else 0)
    + (if Has(mask, XPG_NORM_CODESET) then |loc.normalizedCodeset| + 1 else 0)
    + (if Has(mask, XPG_MODIFIER) then |loc.modifier| + 1 else 0)
    + 1 + |loc.filename| + 1
  }

  /** The name and the NUL behind it fill that size exactly. */
  lemma NameFits(dirs: seq<string>, mask: nat, loc: Locale)
    ensures |Name(dirs, mask, loc)| + 1 == NameSize(dirs, mask, loc)
  {
    DirPrefixLength(dirs);
  }

  /** argz_count, or 1 without directories. */
  function DirCount(dirs: seq<string>): nat {
    if dirs == [] then 1 else |dirs|
  }

  /** The masks a file inherits along: dominated, and not with both forms of the codeset. */
  predicate Inherits(cnt: nat, mask: nat) {
    Dominated(cnt, mask) && !(Has(cnt, XPG_CODESET) && Has(cnt, XPG_NORM_CODESET))
  }

  /** The names of the successors for one mask. */
  function NamesAt(dirs: seq<string>, cnt: nat, mask: nat, loc: Locale): seq<string> {
    if !Inherits(cnt, mask) then []
    else if DirCount(dirs) > 1 then seq(|dirs|, i requires 0 <= i < |dirs| => Name([dirs[i]], cnt, loc))
    else [Name(dirs, cnt, loc)]
  }

  /** The mask the loop over masks starts from: with several directories the file's own one. */
  function Top(dirs: seq<string>, mask: nat): int {
    if DirCount(dirs) > 1 then mask else mask - 1
  }

  /** The names of the successors for the masks from Top down to k. */
  function NamesFrom(dirs: seq<string>, mask: nat, loc: Locale, k: nat): seq<string>
    decreases Top(dirs, mask) + 1 - k
  {
    if k > Top(dirs, mask) then []
    else NamesFrom(dirs, mask, loc, k + 1) + NamesAt(dirs, k, mask, loc)
  }

  /** The successor slots the code allocates, which finds the number of bits with pop. */
  function Slots(dirs: seq<string>, mask: Mask): nat {
    MulLe(0, DirCount(dirs), Pow2(BitCount(mask)));
    DirCount(dirs) * Pow2(BitCount(mask)) + if DirCount(dirs) > 1 then 1 else 0
  }

  /** dirlist_count << pop (mask), and one more for a list of directories */
  method CountSlots(dirs: seq<string>, mask: Mask) returns (slots: nat)
    ensures slots == Slots(dirs, mask)
  {
    var bits := Pop(mask);
    PopCounts(mask);
    MulLe(0, DirCount(dirs), Pow2(bits));
    slots := DirCount(dirs) * Pow2(bits);
    if DirCount(dirs) > 1 {
      slots := slots + 1;
    }
  }

  lemma {:induction false} NamesCount(dirs: seq<string>, mask: nat, loc: Locale, k: nat)
    requires k <= Top(dirs, mask) + 1
    ensures |NamesFrom(dirs, mask, loc, k)| + DirCount(dirs) * DominatedBelow(mask, k)
      <= DirCount(dirs) * DominatedBelow(mask, Top(dirs, mask) + 1)
    decreases Top(dirs, mask) + 1 - k
  {
    if k <= Top(dirs, mask) {
      NamesCount(dirs, mask, loc, k + 1);
      MulDist(DirCount(dirs), DominatedBelow(mask, k), if Dominated(k, mask) then 1 else 0);
    }
  }

  lemma SlotCount(dirs: seq<string>, mask: Mask)
    ensures Slots(dirs, mask) ==
      DirCount(dirs) * DominatedBelow(mask, mask + 1) + if DirCount(dirs) > 1 then 1 else 0
  {
    SubmaskCount(mask);
  }

  /** There is a slot for every successor, and one for the null pointer behind them. */
  lemma SuccessorsFit(dirs: seq<string>, mask: Mask, loc: Locale, k: nat)
    requires k <= Top(dirs, mask) + 1
    ensures |NamesFrom(dirs, mask, loc, k)| < Slots(dirs, mask)
  {
    NamesCount(dirs, mask, loc, k);
    MulLe(0, DominatedBelow(mask, k), DirCount(dirs));
    SlotCount(dirs, mask);
    OwnMask(mask);
    if DirCount(dirs) == 1 {
      assert Top(dirs, mask) + 1 == mask;
    }
  }

  /** The file's own mask is one of those it dominates. */
  lemma OwnMask(mask: Mask)
    ensures DominatedBelow(mask, mask + 1) == DominatedBelow(mask, mask) + 1
  {
    SelfDominated(mask);
  }

  lemma {:induction false} SelfDominated(mask: nat)
    ensures Dominated(mask, mask)
  {
    if mask > 0 {
      SelfDominated(mask / 2);
    }
  }
}
