/** The table of arguments a format string uses: how it is filled while parsing, and how it is fetched. */
module PrintfArguments {
  import opened Arith

  const SIZE_MAX := 0xffff_ffff_ffff_ffff
  /** The size of a table entry. */
  const ARGUMENT_SIZE := 32
  /** A table with an entry at this index does not fit the address space. */
  const HUGE := 0x400_0000_0000_0000

  datatype ArgType =
    | TypeNone
    | Schar | Uchar | Short | Ushort | Int | Uint | LongInt | UlongInt | LongLongInt | UlongLongInt
    | Double | LongDouble | Char | WideChar | String | WideString | Pointer
    | CountSchar | CountShort | CountInt | CountLongInt | CountLongLongInt

  /** xsum: a sum of sizes; the largest size stands for all that do not fit. */
  function Xsum(a: nat, b: nat): (r: nat)
    requires a <= SIZE_MAX && b <= SIZE_MAX
    ensures r == if a + b < SIZE_MAX then a + b else SIZE_MAX
  {
    var sum := (a + b) % (SIZE_MAX + 1);
    if sum >= a then sum else SIZE_MAX
  }

  /** A product fits if and only if one factor is at most the quotient by the other. */
  lemma TimesFits(n: nat, size: nat)
    requires size > 0
    ensures n <= SIZE_MAX / size <==> n * size <= SIZE_MAX
    ensures 0 <= n * size
  {
    var q := SIZE_MAX / size;
    DivFacts(SIZE_MAX, size);
    MulLe(0, n, size);
    if n <= q {
      MulLe(n, q, size);
    } else {
      MulGap(q, n, size);
    }
  }

  /** xtimes, by a positive size. */
  function Xtimes(n: nat, size: nat): (r: nat)
    requires n <= SIZE_MAX && size > 0
    ensures r == if n * size < SIZE_MAX then n * size else SIZE_MAX
  {
    TimesFits(n, size);
    if n <= SIZE_MAX / size then n * size else SIZE_MAX
  }

  type Table = seq<ArgType>

  /** The table with entries up to n, those that were missing without a type. */
  function Padded(t: Table, n: nat): (r: Table)
    ensures |r| == (if n < |t| then |t| else n + 1) && t <= r
    ensures forall i :: |t| <= i < |r| ==> r[i] == TypeNone
  {
    if n < |t| then t else t + seq(n + 1 - |t|, _ => TypeNone)
  }

  /** Registering a type does not contradict the table. */
  predicate Agrees(t: Table, n: nat, x: ArgType) {
    n >= |t| || t[n] == TypeNone || t[n] == x
  }

  function Registered(t: Table, n: nat, x: ArgType): (r: Table)
    requires Agrees(t, n, x)
    ensures n < |r| && |t| <= |r| && r[n] == x
  {
    Padded(t, n)[n := x]
  }

  /** What has been said about an argument stays. */
  predicate Extends(t: Table, t': Table) {
    |t| <= |t'| && forall i :: 0 <= i < |t| && t[i] != TypeNone ==> t'[i] == t[i]
  }

  lemma RegisteredExtends(t: Table, n: nat, x: ArgType)
    requires Agrees(t, n, x)
    ensures Extends(t, Registered(t, n, x))
  {
  }

  datatype Status = Fine | BadFormat | NoMemory

  class Arguments {
    var arg: array<ArgType>
    var count: nat
    var room: nat

    ghost predicate Valid()
      reads this
    {
      arg.Length == room <= SIZE_MAX && count <= room
    }

    ghost function Types(): Table
      requires Valid()
      reads this, arg
    {
      arg[..count]
    }

    constructor ()
      ensures Valid() && Types() == [] && fresh(arg)
    {
      arg := new ArgType[0];
      count, room := 0, 0;
    }

    /** Makes room for entry n. */
    method Reserve(n: nat) returns (ok: bool)
      requires Valid() && n < SIZE_MAX
      modifies this
      ensures Valid() && Types() == old(Types()) && (arg == old(arg) || fresh(arg))
      ensures ok ==> n < room
      ensures !ok ==> n >= HUGE
    {
      if n >= room {
        var newRoom := Xtimes(room, 2);
        if newRoom <= n {
          newRoom := Xsum(n, 1);
        }
        var memorySize := Xtimes(newRoom, ARGUMENT_SIZE);
        if memorySize == SIZE_MAX {
          return false;
        }
        var memory := Enlarge(arg, newRoom);
        assert memory[..count] == memory[..room][..count] == arg[..count];
        arg, room := memory, newRoom;
      }
      ok := true;
    }

    /** Fills the table up to entry n with entries without a type. */
    method Pad(n: nat)
      requires Valid() && n < room
      modifies this`count, arg
      ensures Valid() && Types() == Padded(old(Types()), n)
    {
      ghost var t := Types();
      while count <= n
        invariant Valid() && |t| <= count && (count <= n + 1 || count == |t|)
        invariant Types() == t + seq(count - |t|, _ => TypeNone)
        decreases n + 1 - count
      {
        arg[count] := TypeNone;
        count := count + 1;
      }
    }

    /** REGISTER_ARG: enters the type of argument n, unless the table says otherwise already. */
    method Register(n: nat, x: ArgType) returns (r: Status)
      requires Valid() && n < SIZE_MAX
      modifies this, arg
      ensures Valid() && (arg == old(arg) || fresh(arg))
      ensures r == Fine ==> Agrees(old(Types()), n, x) && Types() == Registered(old(Types()), n, x)
      ensures r == BadFormat ==> !Agrees(old(Types()), n, x)
      ensures r == NoMemory ==> n >= HUGE
    {
      ghost var t := Types();
      var ok := Reserve(n);
      if !ok {
        return NoMemory;
      }
      Pad(n);
      if arg[n] == TypeNone {
        arg[n] := x;
      } else if arg[n] != x {
        return BadFormat;
      }
      assert Types() == Registered(t, n, x);
      r := Fine;
    }
  }

  /** realloc to a larger size. */
  method Enlarge(a: array<ArgType>, size: nat) returns (b: array<ArgType>)
    requires a.Length <= size
    ensures fresh(b) && b.Length == size && b[..a.Length] == a[..]
  {
    b := new ArgType[size](_ => TypeNone);
    var i := 0;
    while i < a.Length
      invariant i <= a.Length && b[..i] == a[..i]
    {
      b[i] := a[i];
      i := i + 1;
    }
  }

  /** PRINTF_FETCHARGS: takes the arguments in order; it fails at one whose type is not known. */
  method FetchArgs(types: Table) returns (ok: bool)
    ensures ok <==> TypeNone !in types
  {
    var i := 0;
    while i < |types|
      invariant i <= |types| && TypeNone !in types[..i]
    {
      if types[i] == TypeNone {
        return false;
      }
      i := i + 1;
    }
    ok := true;
  }
}
