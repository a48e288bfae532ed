/** The names of locale files: how the code writes them into a buffer, and how they can be read. */
module LocaleNames {
  import opened Options
  import opened LocaleMasks
  import opened LocaleFiles

  /** stpcpy: copies a string and the NUL behind it, and returns the place of that NUL. */
  method Stpcpy(buf: array<char>, cp: nat, src: string) returns (end: nat)
    requires cp + |src| < buf.Length
    modifies buf
    ensures end == cp + |src| && buf[..end] == old(buf[..cp]) + src && buf[end] == '\0'
  {
    var i := 0;
    while i < |src|
      invariant i <= |src| && buf[..cp + i] == old(buf[..cp]) + src[..i]
    {
      buf[cp + i] := src[i];
      i := i + 1;
    }
    buf[cp + i] := '\0';
    end := cp + i;
  }

  /** One part of the locale name, if it is present, with the mark in front of it. */
  method PutPart(buf: array<char>, cp: nat, mask: nat, bit: nat, mark: char, part: string) returns (end: nat)
    requires bit > 0 && cp + |Part(mask, bit, mark, part)| < buf.Length
    modifies buf
    ensures end == cp + |Part(mask, bit, mark, part)| && buf[..end] == old(buf[..cp]) + Part(mask, bit, mark, part)
  {
    end := cp;
    if Has(mask, bit) {
      buf[cp] := mark;
      end := Stpcpy(buf, cp + 1, part);
    }
  }

  /** The list of directories as it is stored: a NUL behind each. */
  function Argz(dirs: seq<string>): (list: string)
    ensures |list| == DirLength(dirs)
  {
    if dirs == [] then "" else dirs[0] + "\0" + Argz(dirs[1..])
  }

  /** The list after all NULs but the last have become colons. */
  function Stringified(dirs: seq<string>): (list: string)
    ensures |list| == DirLength(dirs)
    ensures dirs != [] ==> list != "" && list[..|list| - 1] + "/" == DirPrefix(dirs)
  {
    if dirs == [] then ""
    else if |dirs| == 1 then dirs[0] + "\0"
    else
      assert (dirs[0] + ":" + Stringified(dirs[1..]))[..DirLength(dirs) - 1] ==
        dirs[0] + ":" + Stringified(dirs[1..])[..DirLength(dirs[1..]) - 1];
      dirs[0] + ":" + Stringified(dirs[1..])
  }

  method Memcpy(buf: array<char>, src: string)
    requires |src| <= buf.Length
    modifies buf
    ensures buf[..|src|] == src
  {
    var i := 0;
    while i < |src|
      invariant i <= |src| && buf[..i] == src[..i]
    {
      buf[i] := src[i];
      i := i + 1;
    }
  }

  /** The head of the rest of the list, before and after. */
  lemma ListHead(b: string, cp: nat, len: nat, dirs: seq<string>, i: nat)
    requires i < |dirs| && cp <= len <= |b| && b[cp..len] == Argz(dirs[i..])
    ensures
      var at := cp + |dirs[i]|;
      && at < len && b[cp..at] == dirs[i] && b[at] == '\0' && b[at + 1..len] == Argz(dirs[i + 1..])
    ensures DirLength(dirs[i..]) == |dirs[i]| + 1 + DirLength(dirs[i + 1..])
    ensures Stringified(dirs[i..]) == dirs[i] + (if i < |dirs| - 1 then ":" else "\0") + Stringified(dirs[i + 1..])
  {
    var at := cp + |dirs[i]|;
    assert dirs[i..][0] == dirs[i] && dirs[i..][1..] == dirs[i + 1..];
    var list := dirs[i] + "\0" + Argz(dirs[i + 1..]);
    assert b[cp..len] == list;
    assert b[cp..at] == b[cp..len][..|dirs[i]|] == list[..|dirs[i]|];
    assert b[at] == b[cp..len][|dirs[i]|] == list[|dirs[i]|];
    assert b[at + 1..len] == b[cp..len][|dirs[i]| + 1..] == list[|dirs[i]| + 1..];
  }

  /** Passes over one string of the list, and puts a colon behind it unless it is the last. */
  method StringifyHead(buf: array<char>, cp: nat, dirs: seq<string>, i: nat, ghost len: nat) returns (next: nat)
    requires i < |dirs| && cp + DirLength(dirs[i..]) == len <= buf.Length && buf[cp..len] == Argz(dirs[i..])
    modifies buf
    ensures next + DirLength(dirs[i + 1..]) == len && buf[next..len] == Argz(dirs[i + 1..])
    ensures buf[..next] + Stringified(dirs[i + 1..]) == old(buf[..cp]) + Stringified(dirs[i..])
  {
    ListHead(buf[..], cp, len, dirs, i);
    ghost var was := buf[..];
    next := cp + |dirs[i]|;
    if i < |dirs| - 1 {
      buf[next] := ':';
    }
    assert buf[..next + 1] == was[..cp] + dirs[i] + if i < |dirs| - 1 then ":" else "\0";
    assert buf[next + 1..len] == was[next + 1..len];
    next := next + 1;
  }

  /** __argz_stringify: the strings of the list are walked one by one, and each but the last gets a colon behind it. */
  method ArgzStringify(buf: array<char>, dirs: seq<string>)
    requires DirLength(dirs) <= buf.Length && buf[..DirLength(dirs)] == Argz(dirs)
    modifies buf
    ensures buf[..DirLength(dirs)] == Stringified(dirs)
  {
    var i := 0;
    var cp: nat := 0;
    ghost var len := DirLength(dirs);
    assert dirs[0..] == dirs;
    while i < |dirs|
      invariant i <= |dirs| && cp + DirLength(dirs[i..]) == len <= buf.Length
      invariant buf[cp..len] == Argz(dirs[i..]) && buf[..cp] + Stringified(dirs[i..]) == Stringified(dirs)
    {
      cp := StringifyHead(buf, cp, dirs, i, len);
      i := i + 1;
    }
    assert dirs[i..] == [];
  }

  /** The directories in front of the name, with colons between them and a slash behind. */
  method PutDirs(buf: array<char>, dirs: seq<string>) returns (end: nat)
    requires DirLength(dirs) <= buf.Length
    modifies buf
    ensures end == DirLength(dirs) && buf[..end] == DirPrefix(dirs)
  {
    end := DirLength(dirs);
    if end > 0 {
      Memcpy(buf, Argz(dirs));
      ArgzStringify(buf, dirs);
      buf[end - 1] := '/';
      assert buf[..end] == Stringified(dirs)[..end - 1] + "/";
    }
  }

  /** The locale, with the parts that are present. */
  method PutLocale(buf: array<char>, cp: nat, mask: nat, loc: Locale) returns (end: nat)
    requires cp + |LocaleName(mask, loc)| < buf.Length
    modifies buf
    ensures end == cp + |LocaleName(mask, loc)| && buf[..end] == old(buf[..cp]) + LocaleName(mask, loc)
  {
    ghost var before := buf[..cp];
    ghost var t := Part(mask, XPG_TERRITORY, '_', loc.territory);
    ghost var c := Part(mask, XPG_CODESET, '.', loc.codeset);
    ghost var n := Part(mask, XPG_NORM_CODESET, '.', loc.normalizedCodeset);
    ghost var m := Part(mask, XPG_MODIFIER, '@', loc.modifier);
    FiveParts(before, loc.language, t, c, n, m);
    end := Stpcpy(buf, cp, loc.language);
    end := PutPart(buf, end, mask, XPG_TERRITORY, '_', loc.territory);
    end := PutPart(buf, end, mask, XPG_CODESET, '.', loc.codeset);
    end := PutPart(buf, end, mask, XPG_NORM_CODESET, '.', loc.normalizedCodeset);
    end := PutPart(buf, end, mask, XPG_MODIFIER, '@', loc.modifier);
  }

  lemma FiveParts(before: string, l: string, t: string, c: string, n: string, m: string)
    ensures before + l + t + c + n + m == before + (l + t + c + n + m)
    ensures |l + t + c + n + m| == |l| + |t| + |c| + |n| + |m|
  {
  }

  /** The part of _nl_make_l10nflist that builds the file name in a buffer of just the size it needs. */
  method BuildName(dirs: seq<string>, mask: nat, loc: Locale) returns (name: array<char>)
    ensures fresh(name) && name[..] == Name(dirs, mask, loc) + "\0"
  {
    NameFits(dirs, mask, loc);
    DirPrefixLength(dirs);
    name := new char[NameSize(dirs, mask, loc)];
    var cp := PutDirs(name, dirs);
    cp := PutLocale(name, cp, mask, loc);
    name[cp] := '/';
    assert name[..cp + 1] == DirPrefix(dirs) + LocaleName(mask, loc) + "/";
    cp := Stpcpy(name, cp + 1, loc.filename);
    assert name[..] == name[..cp] + "\0";
  }

  /** The place of a mark, or the end. */
  function IndexOf(s: string, c: char): (k: nat)
    ensures k <= |s| && (forall i :: 0 <= i < k ==> s[i] != c) && (k < |s| ==> s[k] == c)
  {
    if s == "" || s[0] == c then 0 else 1 + IndexOf(s[1..], c)
  }

  /** The fields between the marks. */
  function Split(s: string, c: char): (fields: seq<string>)
    ensures fields != []
    decreases |s|
  {
    var k := IndexOf(s, c);
    if k == |s| then [s] else [s[..k]] + Split(s[k + 1..], c)
  }

  /** What follows the mark at k, if there is one. */
  function Behind(s: string, k: nat): Option<string> {
    if k < |s| then Some(s[k + 1..]) else Option.None
  }

  datatype Parts = Parts(
    language: string, territory: Option<string>, codesets: seq<string>, modifier: Option<string>)

  /** Reading a locale: the modifier is behind the first "@", dots separate the codesets, "_" the territory. */
  function ReadParts(x: string): Parts {
    var i := IndexOf(x, '@');
    var fields := Split(x[..i], '.');
    var k := IndexOf(fields[0], '_');
    Parts(fields[0][..k], Behind(fields[0], k), fields[1..], Behind(x, i))
  }

  lemma IndexIs(a: string, c: char, b: string)
    requires c !in a && (b == "" || b[0] == c)
    ensures IndexOf(a + b, c) == |a|
  {
    var s := a + b;
    assert forall i :: 0 <= i < |a| ==> s[i] == a[i];
    assert b != "" ==> s[|a|] == c;
  }

  function Join(fields: seq<string>, c: char): string
    requires fields != []
  {
    if |fields| == 1 then fields[0] else fields[0] + [c] + Join(fields[1..], c)
  }

  lemma {:induction false} SplitJoined(fields: seq<string>, c: char)
    requires fields != [] && forall i :: 0 <= i < |fields| ==> c !in fields[i]
    ensures Split(Join(fields, c), c) == fields
  {
    if |fields| == 1 {
      IndexIs(fields[0], c, "");
      assert fields[0] + "" == fields[0];
    } else {
      var rest := Join(fields[1..], c);
      var s := fields[0] + [c] + rest;
      assert s == fields[0] + ([c] + rest);
      IndexIs(fields[0], c, [c] + rest);
      assert s[..|fields[0]|] == fields[0] && s[|fields[0]| + 1..] == rest;
      SplitJoined(fields[1..], c);
    }
  }

  lemma {:induction false} DirPrefixJoins(dirs: seq<string>)
    requires dirs != []
    ensures DirPrefix(dirs) == Join(dirs, ':') + "/"
  {
    if |dirs| > 1 {
      DirPrefixJoins(dirs[1..]);
    }
  }

  /** No part holds a mark that is looked for in or before it. */
  predicate Unmarked(loc: Locale) {
    && (forall c :: c in "_.@" ==> c !in loc.language)
    && (forall c :: c in ".@" ==> c !in loc.territory && c !in loc.codeset && c !in loc.normalizedCodeset)
  }

  function If(present: bool, x: string): seq<string> {
    if present then [x] else []
  }

  /** The parts that a mask says are present: bit 4 for the territory, 2 and 1 for the codesets, 8 for the modifier. */
  function Present(mask: nat, loc: Locale): Parts {
    Parts(
      loc.language,
      if mask / 4 % 2 == 1 then Some(loc.territory) else Option.None,
      If(mask / 2 % 2 == 1, loc.codeset) + If(mask % 2 == 1, loc.normalizedCodeset),
      if mask / 8 % 2 == 1 then Some(loc.modifier) else Option.None)
  }

  /** A text with a mark and something behind it, or without both. */
  lemma MarkIsRead(a: string, c: char, m: string, behind: Option<string>)
    requires c !in a && m == if behind.Some? then [c] + behind.value else ""
    ensures IndexOf(a + m, c) == |a| && (a + m)[..|a|] == a && Behind(a + m, |a|) == behind
  {
    IndexIs(a, c, m);
    if behind.Some? {
      assert (a + m)[|a| + 1..] == behind.value;
    }
  }

  lemma FieldsAreRead(fields: seq<string>, m: string, modifier: Option<string>)
    requires fields != [] && forall i :: 0 <= i < |fields| ==> '.' !in fields[i] && '@' !in fields[i]
    requires m == if modifier.Some? then ['@'] + modifier.value else ""
    ensures
      var p, k := ReadParts(Join(fields, '.') + m), IndexOf(fields[0], '_');
      p == Parts(fields[0][..k], Behind(fields[0], k), fields[1..], modifier)
  {
    JoinHas(fields, '.', '@');
    MarkIsRead(Join(fields, '.'), '@', m, modifier);
    SplitJoined(fields, '.');
  }

  /** What is read from a name is what it was made from. */
  lemma LocaleIsRead(mask: nat, loc: Locale)
    requires Unmarked(loc)
    ensures ReadParts(LocaleName(mask, loc)) == Present(mask, loc)
  {
    var p := Present(mask, loc);
    var t, m := Part(mask, XPG_TERRITORY, '_', loc.territory), Part(mask, XPG_MODIFIER, '@', loc.modifier);
    var fields := [loc.language + t] + p.codesets;
    FieldsJoin(mask, loc);
    FieldsAreRead(fields, m, p.modifier);
    MarkIsRead(loc.language, '_', t, p.territory);
  }

  lemma FieldsJoin(mask: nat, loc: Locale)
    requires Unmarked(loc)
    ensures
      var first := loc.language + Part(mask, XPG_TERRITORY, '_', loc.territory);
      var fields := [first] + Present(mask, loc).codesets;
      && Join(fields, '.') ==
           first + Part(mask, XPG_CODESET, '.', loc.codeset) + Part(mask, XPG_NORM_CODESET, '.', loc.normalizedCodeset)
      && (forall i :: 0 <= i < |fields| ==> '.' !in fields[i] && '@' !in fields[i])
  {
    var first := loc.language + Part(mask, XPG_TERRITORY, '_', loc.territory);
    assert '.' !in first && '@' !in first;
    JoinTwo(first, mask / 2 % 2 == 1, loc.codeset, mask % 2 == 1, loc.normalizedCodeset, '.');
  }

  lemma JoinTwo(x: string, hasY: bool, y: string, hasZ: bool, z: string, c: char)
    ensures Join([x] + (If(hasY, y) + If(hasZ, z)), c) ==
              x + (if hasY then [c] + y else "") + if hasZ then [c] + z else ""
  {
    JoinFew(x, y, z, c);
    assert [x] + [] == [x];
    assert [x] + ([y] + []) == [x, y];
    assert [x] + ([] + [z]) == [x, z];
    assert [x] + ([y] + [z]) == [x, y, z];
  }

  lemma JoinFew(x: string, y: string, z: string, c: char)
    ensures Join([x], c) == x && Join([x, y], c) == x + [c] + y && Join([x, z], c) == x + [c] + z
    ensures Join([x, y, z], c) == x + ([c] + y) + ([c] + z)
  {
    assert [x, y][1..] == [y] && [x, z][1..] == [z] && [x, y, z][1..] == [y, z] && [y, z][1..] == [z];
    assert Join([y, z], c) == y + [c] + z;
  }

  lemma {:induction false} JoinHas(fields: seq<string>, c: char, d: char)
    requires fields != [] && d != c && forall i :: 0 <= i < |fields| ==> d !in fields[i]
    ensures d !in Join(fields, c)
  {
    if |fields| > 1 {
      JoinHas(fields[1..], c, d);
    }
  }

  /** p consists of the directories with colons between them, if they hold none themselves, and a slash. */
  predicate Lists(p: string, dirs: seq<string>) {
    && p != "" && p[|p| - 1] == '/'
    && ((forall i :: 0 <= i < |dirs| ==> ':' !in dirs[i]) ==> Split(p[..|p| - 1], ':') == dirs)
  }

  lemma DirsAreRead(dirs: seq<string>)
    requires dirs != []
    ensures Lists(DirPrefix(dirs), dirs)
  {
    var list := Join(dirs, ':');
    DirPrefixJoins(dirs);
    assert (list + "/")[..|list|] == list;
    if forall i :: 0 <= i < |dirs| ==> ':' !in dirs[i] {
      SplitJoined(dirs, ':');
    }
  }

  lemma LastPart(p: string, x: string, filename: string)
    ensures p + (x + "/" + filename) == p + x + "/" + filename
  {
  }

  /**
   * What a file name says: p lists the directories, or is empty if there are none or the language is an absolute path;
   * x is the locale; the file looked for comes last.
   */
  lemma NameIsRead(dirlist: seq<string>, mask: nat, loc: Locale) returns (p: string, x: string)
    requires Unmarked(loc)
    ensures Name(Dirs(dirlist, loc), mask, loc) == p + x + "/" + loc.filename
    ensures if dirlist == [] || (loc.language != "" && loc.language[0] == '/') then p == "" else Lists(p, dirlist)
    ensures ReadParts(x) == Present(mask, loc)
  {
    var dirs := Dirs(dirlist, loc);
    p, x := DirPrefix(dirs), LocaleName(mask, loc);
    LocaleIsRead(mask, loc);
    if dirs != [] {
      DirsAreRead(dirs);
    }
    LastPart(p, x, loc.filename);
  }
}
