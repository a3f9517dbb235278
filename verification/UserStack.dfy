/** The initial stack of a user program: argument and environment strings, the auxiliary vector and the pointer
    arrays. */
module UserStack {
  import opened Bytes

  const LIMIT := 0x1_0000_0000_0000_0000
  const PAGE := 0x1000

  type Text = s: seq<byte> | forall i :: 0 <= i < |s| ==> s[i] != 0

  // ---------------------------------------------------------------- memory

  function U64(m: seq<byte>, p: nat): (v: nat)
    requires p + 8 <= |m|
    ensures v < LIMIT
  {
    U32(m, p) + 0x1_0000_0000 * U32(m, p + 4)
  }

  function Enc64(v: nat): (b: seq<byte>)
    requires v < LIMIT
    ensures |b| == 8 && U64(b, 0) == v
  {
    var lo, hi := Enc32(v % 0x1_0000_0000), Enc32(v / 0x1_0000_0000);
    var b := lo + hi;
    assert b[0] == lo[0] && b[1] == lo[1] && b[2] == lo[2] && b[3] == lo[3];
    assert b[4] == hi[0] && b[5] == hi[1] && b[6] == hi[2] && b[7] == hi[3];
    b
  }

  /** The words `ws` lie at `p`. */
  ghost predicate WordsAt(m: seq<byte>, p: int, ws: seq<nat>) {
    0 <= p && p + 8 * |ws| <= |m| && forall i :: 0 <= i < |ws| ==> WordAt(m, p, i, ws[i])
  }

  ghost predicate WordAt(m: seq<byte>, p: nat, i: nat, w: nat) {
    p + 8 * i + 8 <= |m| && U64(m, p + 8 * i) == w
  }

  /** The terminated string `s` lies at `p`. */
  ghost predicate TextAt(m: seq<byte>, p: int, s: seq<byte>) {
    0 <= p && p + |s| < |m| && m[p + |s|] == 0 && forall i :: 0 <= i < |s| ==> m[p + i] == s[i]
  }

  /** Only `[lo, hi)` may differ. */
  ghost predicate Within(m: seq<byte>, m': seq<byte>, lo: int, hi: int) {
    |m'| == |m| && forall i :: 0 <= i < |m| && !(lo <= i < hi) ==> m'[i] == m[i]
  }

  lemma WordsKept(m: seq<byte>, m': seq<byte>, lo: int, hi: int, p: int, ws: seq<nat>)
    requires WordsAt(m, p, ws) && Within(m, m', lo, hi) && hi <= p
    ensures WordsAt(m', p, ws)
  {
    forall i | 0 <= i < |ws| ensures WordAt(m', p, i, ws[i]) {
      assert WordAt(m, p, i, ws[i]);
    }
  }

  lemma TextKept(m: seq<byte>, m': seq<byte>, lo: int, hi: int, p: int, s: seq<byte>)
    requires TextAt(m, p, s) && Within(m, m', lo, hi) && hi <= p
    ensures TextAt(m', p, s)
  {}

  /** One more word in front. */
  lemma WordPushed(m: seq<byte>, p: nat, ws: seq<nat>, w: nat)
    requires WordsAt(m, p, ws) && p >= 8 && w < LIMIT
    ensures p <= |m| && WordsAt(Blit(m, p - 8, Enc64(w)), p - 8, [w] + ws)
  {
    var m', q, b := Blit(m, p - 8, Enc64(w)), p - 8, Enc64(w);
    assert U64(m', q) == w by {
      assert m'[q] == b[0] && m'[q + 1] == b[1] && m'[q + 2] == b[2] && m'[q + 3] == b[3];
      assert m'[q + 4] == b[4] && m'[q + 5] == b[5] && m'[q + 6] == b[6] && m'[q + 7] == b[7];
    }
    WordsKept(m, m', q, p, p, ws);
    forall i | 0 <= i < |ws| + 1 ensures WordAt(m', q, i, ([w] + ws)[i]) {
      if i > 0 {
        assert WordAt(m', p, i - 1, ws[i - 1]);
        assert q + 8 * i == p + 8 * (i - 1);
      }
    }
  }

  // ---------------------------------------------------------------- what the program finds

  datatype Aux = Aux(kind: nat, value: nat)
  datatype Ids = Ids(ruid: nat, euid: nat, rgid: nat, egid: nat)

  const AT_PAGESZ := 6
  const AT_UID := 11
  const AT_EUID := 12
  const AT_GID := 13
  const AT_EGID := 14
  const AT_SECURE := 23

  /** The vector without its end mark. */
  function Vector(ids: Ids): seq<Aux> {
    [Aux(AT_PAGESZ, PAGE), Aux(AT_UID, ids.ruid), Aux(AT_EUID, ids.euid), Aux(AT_GID, ids.rgid), Aux(AT_EGID, ids.egid),
     Aux(AT_SECURE, if ids.euid != ids.ruid || ids.egid != ids.rgid then 1 else 0)]
  }

  /** The values a program finds under a kind. */
  function Values(av: seq<Aux>, kind: nat): seq<nat> {
    if av == [] then [] else ValueIf(av[0], kind) + Values(av[1..], kind)
  }

  function ValueIf(a: Aux, kind: nat): seq<nat> { if a.kind == kind then [a.value] else [] }

  /** One value under each of the six kinds: page size (6), real and effective user (11, 12), real and effective group
      (13, 14), and whether the program runs with other rights than its caller (23). */
  ghost predicate Describes(av: seq<Aux>, ids: Ids) {
    && |av| == 6 && Values(av, 6) == [0x1000]
    && Values(av, 11) == [ids.ruid] && Values(av, 12) == [ids.euid]
    && Values(av, 13) == [ids.rgid] && Values(av, 14) == [ids.egid]
    && Values(av, 23) == [if Values(av, 11) != Values(av, 12) || Values(av, 13) != Values(av, 14) then 1 else 0]
  }

  lemma VectorDescribes(ids: Ids)
    ensures Describes(Vector(ids), ids)
  {
    var av := Vector(ids);
    ValuesOfSix(av, 6);
    ValuesOfSix(av, 11);
    ValuesOfSix(av, 12);
    ValuesOfSix(av, 13);
    ValuesOfSix(av, 14);
    ValuesOfSix(av, 23);
  }

  lemma ValuesOfSix(av: seq<Aux>, kind: nat)
    requires |av| == 6
    ensures Values(av, kind) == ValueIf(av[0], kind) + ValueIf(av[1], kind) + ValueIf(av[2], kind)
      + ValueIf(av[3], kind) + ValueIf(av[4], kind) + ValueIf(av[5], kind)
  {
    var x, y := av[..3], av[3..];
    assert av == x + y;
    ValuesJoin(x, y, kind);
    ValuesOfThree(x, kind);
    ValuesOfThree(y, kind);
  }

  lemma ValuesOfThree(av: seq<Aux>, kind: nat)
    requires |av| == 3
    ensures Values(av, kind) == ValueIf(av[0], kind) + ValueIf(av[1], kind) + ValueIf(av[2], kind)
  {
    var y, z := av[1..], av[2..];
    assert y[1..] == z && z[1..] == [];
    assert Values(z, kind) == ValueIf(z[0], kind) + Values([], kind);
    assert Values(y, kind) == ValueIf(y[0], kind) + Values(z, kind);
  }

  lemma {:induction false} ValuesJoin(x: seq<Aux>, y: seq<Aux>, kind: nat)
    ensures Values(x + y, kind) == Values(x, kind) + Values(y, kind)
    decreases |x|
  {
    if x == [] {
      assert x + y == y;
    } else {
      assert (x + y)[1..] == x[1..] + y;
      ValuesJoin(x[1..], y, kind);
    }
  }

  function AuxWords(av: seq<Aux>): (ws: seq<nat>)
    ensures |ws| == 2 * |av|
  {
    if av == [] then [] else [av[0].kind, av[0].value] + AuxWords(av[1..])
  }

  /** A string up to its terminator. */
  function ReadText(m: seq<byte>, p: nat): seq<byte>
    decreases |m| - p
  {
    if p >= |m| || m[p] == 0 then [] else [m[p]] + ReadText(m, p + 1)
  }

  /** The pointers up to a null. */
  function ReadPointers(m: seq<byte>, p: nat): seq<nat>
    decreases |m| - p
  {
    if p + 8 > |m| || U64(m, p) == 0 then [] else [U64(m, p)] + ReadPointers(m, p + 8)
  }

  function ReadTexts(m: seq<byte>, ps: seq<nat>): seq<seq<byte>> {
    seq(|ps|, i requires 0 <= i < |ps| => ReadText(m, ps[i]))
  }

  /** The vector up to its end mark. */
  function ReadAux(m: seq<byte>, p: nat): seq<Aux>
    decreases |m| - p
  {
    if p + 16 > |m| || U64(m, p) == 0 then [] else [Aux(U64(m, p), U64(m, p + 8))] + ReadAux(m, p + 16)
  }

  datatype Start = Start(argc: nat, argv: seq<seq<byte>>, envp: seq<seq<byte>>, auxv: seq<Aux>)

  /** What a program makes of its stack: the count, then each array up to its null. */
  function Decode(m: seq<byte>, rsp: nat): Start
    requires rsp + 8 <= |m|
  {
    var args := ReadPointers(m, rsp + 8);
    var e := rsp + 16 + 8 * |args|;
    var envs := ReadPointers(m, e);
    Start(U64(m, rsp), ReadTexts(m, args), ReadTexts(m, envs), ReadAux(m, e + 8 + 8 * |envs|))
  }

  lemma {:induction false} TextRead(m: seq<byte>, p: nat, s: Text)
    requires TextAt(m, p, s)
    ensures ReadText(m, p) == s
    decreases |s|
  {
    if s != [] {
      assert m[p + 0] == s[0];
      forall i | 0 <= i < |s| - 1 ensures m[p + 1 + i] == s[1..][i] {
        assert m[p + (i + 1)] == s[i + 1];
      }
      TextRead(m, p + 1, s[1..]);
    }
  }

  /** An array of pointers is read up to its null, and the rest lies behind. */
  lemma {:induction false} PointersRead(m: seq<byte>, p: nat, ps: seq<nat>, rest: seq<nat>)
    requires WordsAt(m, p, ps + [0] + rest) && NonNull(ps)
    ensures ReadPointers(m, p) == ps && WordsAt(m, p + 8 * |ps| + 8, rest)
    decreases |ps|
  {
    var ws := ps + [0] + rest;
    assert WordAt(m, p, 0, ws[0]);
    WordsTail(m, p, ws, 1);
    if ps != [] {
      assert ws[1..] == ps[1..] + [0] + rest;
      PointersRead(m, p + 8, ps[1..], rest);
    } else {
      assert ws[1..] == rest;
    }
  }

  lemma WordsTail(m: seq<byte>, p: nat, ws: seq<nat>, k: nat)
    requires WordsAt(m, p, ws) && k <= |ws|
    ensures WordsAt(m, p + 8 * k, ws[k..])
  {
    forall i | 0 <= i < |ws| - k ensures WordAt(m, p + 8 * k, i, ws[k..][i]) {
      assert WordAt(m, p, k + i, ws[k + i]);
    }
  }

  lemma {:induction false} AuxRead(m: seq<byte>, p: nat, av: seq<Aux>)
    requires WordsAt(m, p, AuxWords(av) + [0, 0]) && forall i :: 0 <= i < |av| ==> av[i].kind != 0
    ensures ReadAux(m, p) == av
    decreases |av|
  {
    var ws := AuxWords(av) + [0, 0];
    assert WordAt(m, p, 0, ws[0]) && WordAt(m, p, 1, ws[1]);
    if av != [] {
      WordsTail(m, p, ws, 2);
      assert ws[2..] == AuxWords(av[1..]) + [0, 0];
      AuxRead(m, p + 16, av[1..]);
    }
  }

  /** All strings lie where the pointers say. */
  ghost predicate TextsAt(m: seq<byte>, ps: seq<nat>, ss: seq<Text>) {
    |ps| == |ss| && forall i :: 0 <= i < |ps| ==> TextAt(m, ps[i], ss[i])
  }

  function Words(args: seq<nat>, envs: seq<nat>, av: seq<Aux>): seq<nat> {
    [|args|] + (args + [0] + (envs + [0] + (AuxWords(av) + [0, 0])))
  }

  lemma TextsRead(m: seq<byte>, ps: seq<nat>, ss: seq<Text>)
    requires TextsAt(m, ps, ss)
    ensures ReadTexts(m, ps) == ss
  {
    forall i | 0 <= i < |ps| ensures ReadTexts(m, ps)[i] == ss[i] {
      TextRead(m, ps[i], ss[i]);
    }
  }

  ghost predicate NonNull(ps: seq<nat>) { forall i :: 0 <= i < |ps| ==> ps[i] != 0 }

  /** A stack with the words and strings in place decodes to what was put there. */
  lemma Decodes(m: seq<byte>, rsp: nat, args: seq<nat>, envs: seq<nat>, argv: seq<Text>, envp: seq<Text>, av: seq<Aux>)
    requires WordsAt(m, rsp, Words(args, envs, av)) && TextsAt(m, args, argv) && TextsAt(m, envs, envp)
    requires NonNull(args) && NonNull(envs) && forall i :: 0 <= i < |av| ==> av[i].kind != 0
    ensures rsp + 8 <= |m| && Decode(m, rsp) == Start(|argv|, argv, envp, av)
  {
    var rest := AuxWords(av) + [0, 0];
    var tail := envs + [0] + rest;
    CountFirst(m, rsp, |args|, args + [0] + tail);
    PointersRead(m, rsp + 8, args, tail);
    PointersRead(m, rsp + 16 + 8 * |args|, envs, rest);
    AuxRead(m, rsp + 16 + 8 * |args| + 8 + 8 * |envs|, av);
    TextsRead(m, args, argv);
    TextsRead(m, envs, envp);
  }

  lemma CountFirst(m: seq<byte>, p: nat, w: nat, ws: seq<nat>)
    requires WordsAt(m, p, [w] + ws)
    ensures p + 8 <= |m| && U64(m, p) == w && WordsAt(m, p + 8, ws)
  {
    assert WordAt(m, p, 0, ([w] + ws)[0]);
    WordsTail(m, p, [w] + ws, 1);
    assert ([w] + ws)[1..] == ws;
  }

  // ---------------------------------------------------------------- pushing

  /** Bytes the strings take with their terminators. */
  function Total(ss: seq<Text>): nat {
    if ss == [] then 0 else Total(ss[..|ss| - 1]) + |ss[|ss| - 1]| + 1
  }

  /** Room for everything, alignment included. */
  function Needed(argv: seq<Text>, envp: seq<Text>): nat {
    Total(argv) + Total(envp) + 7 + 16 * 7 + 8 * (|argv| + |envp| + 3)
  }

  lemma {:induction false} TotalPrefix(ss: seq<Text>, i: nat)
    requires i <= |ss|
    ensures Total(ss[..i]) <= Total(ss)
    decreases |ss|
  {
    if i == |ss| {
      assert ss[..i] == ss;
    } else {
      TotalPrefix(ss[..|ss| - 1], i);
      assert ss[..|ss| - 1][..i] == ss[..i];
    }
  }

  lemma {:induction false} AuxWordsEnd(av: seq<Aux>)
    ensures AuxWords(av + [Aux(0, 0)]) == AuxWords(av) + [0, 0]
    decreases |av|
  {
    if av == [] {
      assert (av + [Aux(0, 0)])[1..] == [];
    } else {
      assert (av + [Aux(0, 0)])[1..] == av[1..] + [Aux(0, 0)];
      AuxWordsEnd(av[1..]);
      assert [av[0].kind, av[0].value] + (AuxWords(av[1..]) + [0, 0]) == [av[0].kind, av[0].value] + AuxWords(av[1..])
        + [0, 0];
    }
  }

  lemma WithinWithin(a: seq<byte>, b: seq<byte>, c: seq<byte>, lo: int, mid: int, top: int, hi: int)
    requires Within(a, b, mid, hi) && Within(b, c, lo, top) && lo <= mid && top <= hi
    ensures Within(a, c, lo, hi)
  {}

  lemma TextsKept(m: seq<byte>, m': seq<byte>, lo: int, hi: int, ps: seq<nat>, ss: seq<Text>)
    requires TextsAt(m, ps, ss) && Within(m, m', lo, hi) && forall i :: 0 <= i < |ps| ==> ps[i] >= hi
    ensures TextsAt(m', ps, ss)
  {
    forall i | 0 <= i < |ps| ensures TextAt(m', ps[i], ss[i]) {
      TextKept(m, m', lo, hi, ps[i], ss[i]);
    }
  }

  lemma Aligned(r: nat, k: nat)
    ensures (r - r % 8) % 8 == 0
    ensures r % 8 == 0 ==> (r - 8 * k) % 8 == 0
  {}

  class Stack {
    var mem: seq<byte>
    var rsp: nat
    var rdi: nat

    /** `PUSH_STR`. */
    method PushText(s: Text)
      requires |s| + 1 <= rsp <= |mem|
      modifies this`mem, this`rsp
      ensures rsp == old(rsp) - (|s| + 1) && TextAt(mem, rsp, s) && Within(old(mem), mem, rsp, old(rsp))
    {
      rsp := rsp - (|s| + 1);
      var b: seq<byte> := s + [0];
      mem := Blit(mem, rsp, b);
      assert forall i :: 0 <= i < |b| ==> mem[rsp + i] == b[i];
      assert b[|s|] == 0;
    }

    /** `PUSH` of a word. */
    method PushWord(w: nat, ghost ws: seq<nat>)
      requires 8 <= rsp <= |mem| && w < LIMIT && WordsAt(mem, rsp, ws)
      modifies this`mem, this`rsp
      ensures rsp == old(rsp) - 8 && WordsAt(mem, rsp, [w] + ws) && Within(old(mem), mem, rsp, old(rsp))
    {
      WordPushed(mem, rsp, ws, w);
      rsp := rsp - 8;
      mem := Blit(mem, rsp, Enc64(w));
    }

    /** The strings one below the other; the pointers in order. */
    method PushTexts(ss: seq<Text>) returns (ps: seq<nat>)
      requires Total(ss) <= rsp <= |mem|
      modifies this`mem, this`rsp
      ensures rsp == old(rsp) - Total(ss) && TextsAt(mem, ps, ss) && Within(old(mem), mem, rsp, old(rsp))
      ensures forall i :: 0 <= i < |ps| ==> rsp <= ps[i] < old(rsp)
    {
      ps := [];
      var i := 0;
      while i < |ss|
        invariant 0 <= i <= |ss| && Total(ss[..i]) <= old(rsp) && rsp == old(rsp) - Total(ss[..i])
        invariant TextsAt(mem, ps, ss[..i]) && Within(old(mem), mem, rsp, old(rsp))
        invariant forall j :: 0 <= j < |ps| ==> rsp <= ps[j] < old(rsp)
      {
        assert ss[..i + 1][..i] == ss[..i];
        TotalPrefix(ss, i + 1);
        ghost var m, r := mem, rsp;
        PushText(ss[i]);
        TextsKept(m, mem, rsp, r, ps, ss[..i]);
        WithinWithin(old(mem), m, mem, rsp, r, r, old(rsp));
        ps := ps + [rsp];
        i := i + 1;
      }
      assert ss[..i] == ss;
    }

    /** The words in reverse, so that they lie in order. */
    method PushAll(ps: seq<nat>, ghost ws: seq<nat>)
      requires 8 * |ps| <= rsp <= |mem| && WordsAt(mem, rsp, ws) && forall i :: 0 <= i < |ps| ==> ps[i] < LIMIT
      modifies this`mem, this`rsp
      ensures rsp == old(rsp) - 8 * |ps| && WordsAt(mem, rsp, ps + ws) && Within(old(mem), mem, rsp, old(rsp))
    {
      var i := |ps|;
      assert ps[i..] + ws == ws;
      while i > 0
        invariant 0 <= i <= |ps| && rsp == old(rsp) - 8 * (|ps| - i)
        invariant WordsAt(mem, rsp, ps[i..] + ws) && Within(old(mem), mem, rsp, old(rsp))
      {
        i := i - 1;
        ghost var m, r := mem, rsp;
        PushWord(ps[i], ps[i + 1..] + ws);
        assert [ps[i]] + (ps[i + 1..] + ws) == ps[i..] + ws;
        WithinWithin(old(mem), m, mem, rsp, r, r, old(rsp));
      }
      assert ps[0..] + ws == ps + ws;
    }

    /** The vector and its end mark, last entry first; each entry is two words. */
    method PushAux(av: seq<Aux>)
      requires 16 * |av| <= rsp <= |mem| && forall i :: 0 <= i < |av| ==> av[i].kind < LIMIT && av[i].value < LIMIT
      modifies this`mem, this`rsp
      ensures rsp == old(rsp) - 16 * |av| && WordsAt(mem, rsp, AuxWords(av)) && Within(old(mem), mem, rsp, old(rsp))
    {
      var i := |av|;
      while i > 0
        invariant 0 <= i <= |av| && rsp == old(rsp) - 16 * (|av| - i)
        invariant WordsAt(mem, rsp, AuxWords(av[i..])) && Within(old(mem), mem, rsp, old(rsp))
      {
        i := i - 1;
        ghost var m, r, ws := mem, rsp, AuxWords(av[i + 1..]);
        PushWord(av[i].value, ws);
        PushWord(av[i].kind, [av[i].value] + ws);
        assert av[i..][1..] == av[i + 1..];
        assert [av[i].kind] + ([av[i].value] + ws) == [av[i].kind, av[i].value] + ws;
        WithinWithin(old(mem), m, mem, rsp, r, r, old(rsp));
      }
      assert av[0..] == av;
    }

    /** `setup_user_stack`: the program finds exactly the arguments, the environment and the vector, on an aligned
        stack; memory outside the part pushed is untouched. */
    method Setup(argv: seq<Text>, envp: seq<Text>, ids: Ids)
      requires |argv| <= 64 && |envp| <= 64 && Needed(argv, envp) <= rsp <= |mem| < LIMIT
      requires ids.ruid < LIMIT && ids.euid < LIMIT && ids.rgid < LIMIT && ids.egid < LIMIT
      modifies this
      ensures rsp % 8 == 0 && rdi == rsp && rsp + 8 <= |mem| && old(rsp) - Needed(argv, envp) <= rsp
      ensures var s := Decode(mem, rsp); s.argc == |argv| && s.argv == argv && s.envp == envp && Describes(s.auxv, ids)
      ensures Within(old(mem), mem, rsp, old(rsp))
    {
      ghost var m0, r0 := mem, rsp;
      var args, envs := PushStrings(argv, envp);
      ghost var m1, r1 := mem, rsp;
      Aligned(rsp, 0);
      rsp := rsp - rsp % 8;
      ghost var r2 := rsp;
      PushPointers(args, envs, ids);
      TextsKept(m1, mem, rsp, r2, args, argv);
      TextsKept(m1, mem, rsp, r2, envs, envp);
      WithinWithin(m0, m1, mem, rsp, r1, r2, r0);
      Decodes(mem, rsp, args, envs, argv, envp, Vector(ids));
      VectorDescribes(ids);
      rdi := rsp;
    }

    method PushStrings(argv: seq<Text>, envp: seq<Text>) returns (args: seq<nat>, envs: seq<nat>)
      requires Total(argv) + Total(envp) <= rsp <= |mem|
      modifies this`mem, this`rsp
      ensures rsp == old(rsp) - Total(argv) - Total(envp) && Within(old(mem), mem, rsp, old(rsp))
      ensures TextsAt(mem, args, argv) && TextsAt(mem, envs, envp)
      ensures forall i :: 0 <= i < |args| ==> rsp <= args[i] < old(rsp)
      ensures forall i :: 0 <= i < |envs| ==> rsp <= envs[i] < old(rsp)
    {
      args := PushTexts(argv);
      ghost var m1, r1 := mem, rsp;
      envs := PushTexts(envp);
      TextsKept(m1, mem, rsp, r1, args, argv);
      WithinWithin(old(mem), m1, mem, rsp, r1, r1, old(rsp));
    }

    /** Everything below the strings. */
    method PushPointers(args: seq<nat>, envs: seq<nat>, ids: Ids)
      requires 16 * 7 + 8 * (|args| + |envs| + 3) <= rsp <= |mem| && rsp % 8 == 0
      requires ids.ruid < LIMIT && ids.euid < LIMIT && ids.rgid < LIMIT && ids.egid < LIMIT && |args| < LIMIT
      requires (forall i :: 0 <= i < |args| ==> args[i] < LIMIT) && (forall i :: 0 <= i < |envs| ==> envs[i] < LIMIT)
      modifies this`mem, this`rsp
      ensures rsp == old(rsp) - (16 * 7 + 8 * (|args| + |envs| + 3)) && rsp % 8 == 0
      ensures WordsAt(mem, rsp, Words(args, envs, Vector(ids))) && Within(old(mem), mem, rsp, old(rsp))
    {
      var av := Vector(ids) + [Aux(0, 0)];
      AuxWordsEnd(Vector(ids));
      ghost var m0, r0 := mem, rsp;
      PushAux(av);
      ghost var m1, r1 := mem, rsp;
      ghost var ws := AuxWords(av);
      PushArray(envs, ws);
      WithinWithin(m0, m1, mem, rsp, r1, r1, r0);
      ghost var m2, r2 := mem, rsp;
      ws := envs + [0] + ws;
      PushArray(args, ws);
      WithinWithin(m0, m2, mem, rsp, r2, r2, r0);
      ghost var m3, r3 := mem, rsp;
      ws := args + [0] + ws;
      PushWord(|args|, ws);
      WithinWithin(m0, m3, mem, rsp, r3, r3, r0);
      Aligned(r0, 14 + |args| + |envs| + 3);
    }

    /** A null and the pointers in front of it. */
    method PushArray(ps: seq<nat>, ghost ws: seq<nat>)
      requires 8 * |ps| + 8 <= rsp <= |mem| && WordsAt(mem, rsp, ws) && forall i :: 0 <= i < |ps| ==> ps[i] < LIMIT
      modifies this`mem, this`rsp
      ensures rsp == old(rsp) - 8 * |ps| - 8 && WordsAt(mem, rsp, ps + [0] + ws) && Within(old(mem), mem, rsp, old(rsp))
    {
      ghost var m0, r0 := mem, rsp;
      PushWord(0, ws);
      ghost var m1, r1 := mem, rsp;
      PushAll(ps, [0] + ws);
      assert ps + ([0] + ws) == ps + [0] + ws;
      WithinWithin(m0, m1, mem, rsp, r1, r1, r0);
    }
  }
}
