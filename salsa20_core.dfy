module Salsa20Core {
  import opened Bits
  import opened CipherInterface

  // ---------------------------------------------------------------------
  // Word helpers

  /** `rotl32`: `(n << c) | (n >> (32 - c))`. A shift by 32 is undefined in
      C++, so the count must lie strictly between 0 and 32. */
  function Rotl32(n: word, c: nat): word
    requires 0 < c < 32
  {
    Or32(Shl32(n, c), Shr32(n, 32 - c))
  }

  /** The rotation moves the low 32 - c bits up by c places and brings the
      high c bits down to the bottom. */
  lemma RotlAsSum(n: word, c: nat)
    requires 0 < c < 32
    ensures Rotl32(n, c) == (n % Pow2(32 - c)) * Pow2(c) + n / Pow2(32 - c)
  {
    var p, q := Pow2(c), Pow2(32 - c);
    Pow2Add(c, 32 - c);
    Pow2Values();
    var l, h := n % q, n / q;
    MulModSplit(n, p, q);
    assert Shl32(n, c) == l * p;
    QuotientBound(n, p, q);
    assert Shr32(n, 32 - c) == h;
    MulMod(l, p);
    OrDisjoint(l * p, h, c);
  }

  /** Rotating back by the complementary count restores the word: the
      rotation is circular and loses no bit. */
  lemma RotlInverse(n: word, c: nat)
    requires 0 < c < 32
    ensures Rotl32(Rotl32(n, c), 32 - c) == n
  {
    RotlAsSum(n, c);
    RotlAsSum(Rotl32(n, c), 32 - c);
    assert 32 - (32 - c) == c;
    Pow2Add(c, 32 - c);
    Pow2Values();
    SwapHalves(n, Pow2(c), Pow2(32 - c));
  }

  /** `bytesToWord`: the little-endian value of four bytes. The code
      computes it as `b[0] | b[1] << 8 | b[2] << 16 | b[3] << 24` on
      `uint32_t`; `BytesToWordShifts` proves the two equal. */
  function BytesToWord(b: seq<byte>): word
    requires |b| == 4
  {
    b[0] as int + (b[1] as int) * 0x100 + (b[2] as int) * 0x1_0000 + (b[3] as int) * 0x100_0000
  }

  /** The four bytes `wordToBytes` writes: `static_cast<unsigned char>` of
      the word shifted right by 0, 8, 16 and 24, that is, the remainder
      modulo 2^8 of the quotient by 2^(8k). */
  function WordBytes(w: word): (r: seq<byte>)
    ensures |r| == 4
  {
    [w % 0x100, (w / 0x100) % 0x100, (w / 0x1_0000) % 0x100, (w / 0x100_0000) % 0x100]
  }

  /** The code's expression for `bytesToWord`: the bytes occupy disjoint
      bit ranges, so each shift is a product and each or a sum. */
  lemma BytesToWordShifts(b: seq<byte>)
    requires |b| == 4
    ensures BytesToWord(b) == Or32(Or32(Or32(b[0], Shl32(b[1], 8)), Shl32(b[2], 16)), Shl32(b[3], 24))
  {
    var b0: nat, b1: nat, b2: nat, b3: nat := b[0], b[1], b[2], b[3];
    Pow2Values();
    ShlNoOverflow(b[1], 8, 0x100);
    ShlNoOverflow(b[2], 16, 0x1_0000);
    ShlNoOverflow(b[3], 24, 0x100_0000);
    OrShifted(b0, b1, 0x100, 8);
    OrShifted(b0 + b1 * 0x100, b2, 0x1_0000, 16);
    OrShifted(b0 + b1 * 0x100 + b2 * 0x1_0000, b3, 0x100_0000, 24);
  }

  /** The quotients in `WordBytes` are the code's right shifts. */
  lemma WordBytesShifts(w: word)
    ensures WordBytes(w) == [w % 0x100, Shr32(w, 8) % 0x100, Shr32(w, 16) % 0x100, Shr32(w, 24) % 0x100]
  {
    Pow2Values();
    ShiftByConstant(w, 8, 0x100);
    ShiftByConstant(w, 16, 0x1_0000);
    ShiftByConstant(w, 24, 0x100_0000);
  }

  /** `bytesToWord` undoes `wordToBytes` ... */
  lemma WordRoundTrip(w: word)
    ensures BytesToWord(WordBytes(w)) == w
  {
    var q1 := w / 0x100;
    var q2 := q1 / 0x100;
    var q3 := q2 / 0x100;
    DivModUnique(w, 0x1_0000, q2, w % 0x100 + 0x100 * (q1 % 0x100));
    DivModUnique(w, 0x100_0000, q3, w % 0x100 + 0x100 * (q1 % 0x100) + 0x1_0000 * (q2 % 0x100));
  }

  /** ... and `wordToBytes` undoes `bytesToWord`. */
  lemma BytesRoundTrip(b: seq<byte>)
    requires |b| == 4
    ensures WordBytes(BytesToWord(b)) == b
  {
    var b0: nat, b1: nat, b2: nat, b3: nat := b[0], b[1], b[2], b[3];
    var w := BytesToWord(b);
    DivModUnique(w, 0x100, b1 + 0x100 * b2 + 0x1_0000 * b3, b0);
    DivModUnique(w / 0x100, 0x100, b2 + 0x100 * b3, b1);
    DivModUnique(w, 0x1_0000, b2 + 0x100 * b3, b0 + 0x100 * b1);
    DivModUnique(w / 0x1_0000, 0x100, b3, b2);
    DivModUnique(w, 0x100_0000, b3, b0 + 0x100 * b1 + 0x1_0000 * b2);
    DivModUnique(b3, 0x100, 0, b3);
    var r := WordBytes(w);
    assert r[0] == b[0] && r[1] == b[1] && r[2] == b[2] && r[3] == b[3];
  }

  /** `wordToBytes`: stores the word into `bytes[offset..offset + 4]` and
      touches nothing else. */
  method WordToBytes(w: word, bytes: array<byte>, offset: nat)
    requires offset + 4 <= bytes.Length
    modifies bytes
    ensures bytes[offset..offset + 4] == WordBytes(w)
    ensures forall j :: 0 <= j < bytes.Length && !(offset <= j < offset + 4) ==> bytes[j] == old(bytes[j])
  {
    bytes[offset] := w % 0x100;
    bytes[offset + 1] := (w / 0x100) % 0x100;
    bytes[offset + 2] := (w / 0x1_0000) % 0x100;
    bytes[offset + 3] := (w / 0x100_0000) % 0x100;
  }

  // ---------------------------------------------------------------------
  // Quarter-round

  /** The four words a quarter-round works on, in argument order. */
  datatype Quad = Quad(a: word, b: word, c: word, d: word)

  /** `quarterRound`: updates b, then c, then d, then a, each from the words
      already updated before it. */
  function Quarter(q: Quad): Quad
  {
    var b := Xor32(q.b, Rotl32(Add32(q.a, q.d), 7));
    var c := Xor32(q.c, Rotl32(Add32(b, q.a), 9));
    var d := Xor32(q.d, Rotl32(Add32(c, b), 13));
    var a := Xor32(q.a, Rotl32(Add32(d, c), 18));
    Quad(a, b, c, d)
  }

  /** Undoes the four steps in reverse order: a, d, c, b. Each step XORs its
      word with a value computed from the other words only, so XORing the
      same value again restores it. */
  function InverseQuarter(r: Quad): Quad
  {
    var a := Xor32(r.a, Rotl32(Add32(r.d, r.c), 18));
    var d := Xor32(r.d, Rotl32(Add32(r.c, r.b), 13));
    var c := Xor32(r.c, Rotl32(Add32(r.b, a), 9));
    var b := Xor32(r.b, Rotl32(Add32(a, d), 7));
    Quad(a, b, c, d)
  }

  /** Undoing a quarter-round gives back its input. */
  lemma InverseUndoesQuarter(q: Quad)
    ensures InverseQuarter(Quarter(q)) == q
  {
    var r := Quarter(q);
    Xor32Cancel(q.a, Rotl32(Add32(r.d, r.c), 18));
    Xor32Cancel(q.d, Rotl32(Add32(r.c, r.b), 13));
    Xor32Cancel(q.c, Rotl32(Add32(r.b, q.a), 9));
    Xor32Cancel(q.b, Rotl32(Add32(q.a, q.d), 7));
  }

  /** Redoing a quarter-round after undoing it gives back the words: with the
      previous lemma, the quarter-round is a bijection on four words. */
  lemma QuarterUndoesInverse(r: Quad)
    ensures Quarter(InverseQuarter(r)) == r
  {
    var p := InverseQuarter(r);
    Xor32Cancel(r.b, Rotl32(Add32(p.a, p.d), 7));
    Xor32Cancel(r.c, Rotl32(Add32(r.b, p.a), 9));
    Xor32Cancel(r.d, Rotl32(Add32(r.c, r.b), 13));
    Xor32Cancel(r.a, Rotl32(Add32(r.d, r.c), 18));
  }

  /** Four distinct positions of the 16-word state. */
  datatype Group = Group(a: nat, b: nat, c: nat, d: nat)

  predicate ValidGroup(g: Group)
  {
    g.a < 16 && g.b < 16 && g.c < 16 && g.d < 16 &&
    g.a != g.b && g.a != g.c && g.a != g.d && g.b != g.c && g.b != g.d && g.c != g.d
  }

  predicate InGroup(j: nat, g: Group)
  {
    j == g.a || j == g.b || j == g.c || j == g.d
  }

  /** The state's words at a group's positions. */
  function Gather(s: seq<word>, g: Group): Quad
    requires |s| == 16 && ValidGroup(g)
  {
    Quad(s[g.a], s[g.b], s[g.c], s[g.d])
  }

  /** The state with the words of `q` stored at the positions of `g`, in the
      order the quarter-round stores them: b, c, d, a. */
  function Place(s: seq<word>, g: Group, q: Quad): (r: seq<word>)
    requires |s| == 16 && ValidGroup(g)
    ensures |r| == 16 && Gather(r, g) == q
    ensures forall j :: 0 <= j < 16 && !InGroup(j, g) ==> r[j] == s[j]
  {
    s[g.b := q.b][g.c := q.c][g.d := q.d][g.a := q.a]
  }

  /** A quarter-round on the state words at the positions of `g`. */
  function QuarterAt(s: seq<word>, g: Group): (r: seq<word>)
    requires |s| == 16 && ValidGroup(g)
    ensures |r| == 16
    ensures Gather(r, g) == Quarter(Gather(s, g))
    ensures forall j :: 0 <= j < 16 && !InGroup(j, g) ==> r[j] == s[j]
  {
    Place(s, g, Quarter(Gather(s, g)))
  }

  /** `quarterRound` called on four elements of the state array: it writes
      the four words in the order b, c, d, a and leaves the other twelve. */
  method QuarterRound(state: array<word>, a: nat, b: nat, c: nat, d: nat)
    requires state.Length == 16 && ValidGroup(Group(a, b, c, d))
    modifies state
    ensures state[..] == QuarterAt(old(state[..]), Group(a, b, c, d))
  {
    state[b] := Xor32(state[b], Rotl32(Add32(state[a], state[d]), 7));
    state[c] := Xor32(state[c], Rotl32(Add32(state[b], state[a]), 9));
    state[d] := Xor32(state[d], Rotl32(Add32(state[c], state[b]), 13));
    state[a] := Xor32(state[a], Rotl32(Add32(state[d], state[c]), 18));
  }

  // ---------------------------------------------------------------------
  // Column round and row round

  /** The groups of `columnRound`, in call order (as written in the code). */
  const ColumnGroups: seq<Group> :=
    [Group(0, 4, 8, 12), Group(1, 5, 9, 13), Group(2, 6, 10, 14), Group(3, 7, 11, 15)]

  /** The groups of `rowRound`, in call order. */
  const RowGroups: seq<Group> :=
    [Group(0, 1, 2, 3), Group(5, 6, 7, 4), Group(10, 11, 8, 9), Group(15, 12, 13, 14)]

  predicate ValidGroups(gs: seq<Group>)
  {
    forall k :: 0 <= k < |gs| ==> ValidGroup(gs[k])
  }

  /** The transformation `f` applied to each group in turn, each call seeing
      the words the earlier calls stored. The rounds use `f == Quarter`; the
      lemmas about the order of the calls hold for any `f`. The state is
      part of the termination measure only so that the verifier does not
      unfold all four calls whenever the groups are a constant list. */
  function ApplyGroups(s: seq<word>, gs: seq<Group>, f: Quad -> Quad): (r: seq<word>)
    requires |s| == 16 && ValidGroups(gs)
    ensures |r| == 16
    decreases |gs|, s
  {
    if gs == [] then s else ApplyGroups(Place(s, gs[0], f(Gather(s, gs[0]))), gs[1..], f)
  }

  /** No position of `h` is a position of `g`. */
  predicate Disjoint(g: Group, h: Group)
  {
    !InGroup(h.a, g) && !InGroup(h.b, g) && !InGroup(h.c, g) && !InGroup(h.d, g)
  }

  /** No two calls share a position. */
  predicate PairwiseDisjoint(gs: seq<Group>)
  {
    forall k1, k2 :: 0 <= k1 < k2 < |gs| ==> Disjoint(gs[k1], gs[k2])
  }

  /** The column groups are the four columns of the 4x4 state, and the row
      groups its four rows: position j is in column group j % 4 and in row
      group j / 4, and no position is handed to two calls. */
  lemma ColumnGroupsPartition()
    ensures ValidGroups(ColumnGroups) && PairwiseDisjoint(ColumnGroups)
    ensures forall j :: 0 <= j < 16 ==> InGroup(j, ColumnGroups[j % 4])
  {
    var g0, g1, g2, g3 := ColumnGroups[0], ColumnGroups[1], ColumnGroups[2], ColumnGroups[3];
    assert Disjoint(g0, g1) && Disjoint(g0, g2) && Disjoint(g0, g3);
    assert Disjoint(g1, g2) && Disjoint(g1, g3) && Disjoint(g2, g3);
  }

  lemma RowGroupsPartition()
    ensures ValidGroups(RowGroups) && PairwiseDisjoint(RowGroups)
    ensures forall j :: 0 <= j < 16 ==> InGroup(j, RowGroups[j / 4])
  {
    var g0, g1, g2, g3 := RowGroups[0], RowGroups[1], RowGroups[2], RowGroups[3];
    assert Disjoint(g0, g1) && Disjoint(g0, g2) && Disjoint(g0, g3);
    assert Disjoint(g1, g2) && Disjoint(g1, g3) && Disjoint(g2, g3);
  }

  /** A position no group names keeps its word. */
  lemma {:induction false} ApplyGroupsUntouched(s: seq<word>, gs: seq<Group>, f: Quad -> Quad, j: nat)
    requires |s| == 16 && ValidGroups(gs) && j < 16
    requires forall k :: 0 <= k < |gs| ==> !InGroup(j, gs[k])
    ensures ApplyGroups(s, gs, f)[j] == s[j]
    decreases |gs|
  {
    if gs != [] {
      assert !InGroup(j, gs[0]);
      ApplyGroupsUntouched(Place(s, gs[0], f(Gather(s, gs[0]))), gs[1..], f, j);
    }
  }

  /** When the groups are disjoint, the order of the calls does not matter:
      each group's words end up as `f` of its own original words. */
  lemma {:induction false} ApplyGroupsIndependent(s: seq<word>, gs: seq<Group>, f: Quad -> Quad, k: nat)
    requires |s| == 16 && ValidGroups(gs) && PairwiseDisjoint(gs) && k < |gs|
    ensures Gather(ApplyGroups(s, gs, f), gs[k]) == f(Gather(s, gs[k]))
    decreases |gs|
  {
    var s1 := Place(s, gs[0], f(Gather(s, gs[0])));
    var rest := gs[1..];
    assert ValidGroups(rest);
    if k == 0 {
      var g := gs[0];
      forall j | 0 <= j < 16 && InGroup(j, g) ensures ApplyGroups(s1, rest, f)[j] == s1[j] {
        forall m | 0 <= m < |rest| ensures !InGroup(j, rest[m]) {
          assert Disjoint(gs[0], gs[m + 1]);
        }
        ApplyGroupsUntouched(s1, rest, f, j);
      }
    } else {
      var g := gs[k];
      assert g == rest[k - 1];
      assert PairwiseDisjoint(rest) by {
        forall k1, k2 | 0 <= k1 < k2 < |rest| ensures Disjoint(rest[k1], rest[k2]) {
          assert Disjoint(gs[k1 + 1], gs[k2 + 1]);
        }
      }
      ApplyGroupsIndependent(s1, rest, f, k - 1);
      assert Disjoint(gs[0], g);
      assert Gather(s1, g) == Gather(s, g);
    }
  }

  /** Four calls, spelled out. */
  lemma ApplyFourGroups(s: seq<word>, gs: seq<Group>, f: Quad -> Quad)
    requires |s| == 16 && |gs| == 4 && ValidGroups(gs)
    ensures var s1 := Place(s, gs[0], f(Gather(s, gs[0])));
            var s2 := Place(s1, gs[1], f(Gather(s1, gs[1])));
            var s3 := Place(s2, gs[2], f(Gather(s2, gs[2])));
            ApplyGroups(s, gs, f) == Place(s3, gs[3], f(Gather(s3, gs[3])))
  {
    var s1 := Place(s, gs[0], f(Gather(s, gs[0])));
    var s2 := Place(s1, gs[1], f(Gather(s1, gs[1])));
    var s3 := Place(s2, gs[2], f(Gather(s2, gs[2])));
    var s4 := Place(s3, gs[3], f(Gather(s3, gs[3])));
    var r1, r2, r3 := gs[1..], gs[2..], gs[3..];
    assert r1[0] == gs[1] && r1[1..] == r2;
    assert r2[0] == gs[2] && r2[1..] == r3;
    assert r3[0] == gs[3] && r3[1..] == [];
    assert ApplyGroups(s4, [], f) == s4;
    assert ApplyGroups(s3, r3, f) == s4;
    assert ApplyGroups(s2, r2, f) == s4;
    assert ApplyGroups(s1, r1, f) == s4;
  }

  /** `columnRound` as a function of the state. */
  function Columns(s: seq<word>): (r: seq<word>)
    requires |s| == 16
    ensures |r| == 16
  {
    ApplyGroups(s, ColumnGroups, Quarter)
  }

  /** `rowRound` as a function of the state. */
  function Rows(s: seq<word>): (r: seq<word>)
    requires |s| == 16
    ensures |r| == 16
  {
    ApplyGroups(s, RowGroups, Quarter)
  }

  /** The column round is four independent quarter-rounds, one per column,
      whatever the order of the calls. */
  lemma ColumnsAreIndependentQuarters(s: seq<word>, k: nat)
    requires |s| == 16 && k < 4
    ensures Gather(ApplyGroups(s, ColumnGroups, Quarter), ColumnGroups[k]) == Quarter(Gather(s, ColumnGroups[k]))
  {
    ColumnGroupsPartition();
    ApplyGroupsIndependent(s, ColumnGroups, Quarter, k);
  }

  /** Likewise the row round, one quarter-round per row. */
  lemma RowsAreIndependentQuarters(s: seq<word>, k: nat)
    requires |s| == 16 && k < 4
    ensures Gather(ApplyGroups(s, RowGroups, Quarter), RowGroups[k]) == Quarter(Gather(s, RowGroups[k]))
  {
    RowGroupsPartition();
    ApplyGroupsIndependent(s, RowGroups, Quarter, k);
  }

  /** `columnRound`: the four quarter-round calls on the state array. */
  method ColumnRound(state: array<word>)
    requires state.Length == 16
    modifies state
    ensures state[..] == Columns(old(state[..]))
  {
    ColumnGroupsPartition();
    ApplyFourGroups(state[..], ColumnGroups, Quarter);
    QuarterRound(state, 0, 4, 8, 12);
    QuarterRound(state, 1, 5, 9, 13);
    QuarterRound(state, 2, 6, 10, 14);
    QuarterRound(state, 3, 7, 11, 15);
  }

  /** `rowRound`. */
  method RowRound(state: array<word>)
    requires state.Length == 16
    modifies state
    ensures state[..] == Rows(old(state[..]))
  {
    RowGroupsPartition();
    ApplyFourGroups(state[..], RowGroups, Quarter);
    QuarterRound(state, 0, 1, 2, 3);
    QuarterRound(state, 5, 6, 7, 4);
    QuarterRound(state, 10, 11, 8, 9);
    QuarterRound(state, 15, 12, 13, 14);
  }

  /** One iteration of the round loop: column round, then row round. */
  function DoubleRound(s: seq<word>): (r: seq<word>)
    requires |s| == 16
    ensures |r| == 16
  {
    Rows(Columns(s))
  }

  /** The state after n iterations of the round loop. As in `ApplyGroups`,
      the state is in the termination measure only so that the verifier
      does not unfold all ten iterations for the constant count. */
  function Rounds(s: seq<word>, n: nat): (r: seq<word>)
    requires |s| == 16
    ensures |r| == 16
    decreases n, s
  {
    if n == 0 then s else DoubleRound(Rounds(s, n - 1))
  }

  // ---------------------------------------------------------------------
  // Initial state and block function

  /** The constants for a 32-byte key: "expand 32-byte k". */
  const Sigma: seq<word> := [0x61707865, 0x3320646e, 0x79622d32, 0x6b206574]

  /** The constants for a 16-byte key, as the code spells them. */
  const Tau: seq<word> := [0x61707865, 0x3120646e, 0x79622d32, 0x6b206574]

  /** Words laid out little-endian, four bytes per word. */
  function Serialize(ws: seq<word>): (r: seq<byte>)
    ensures |r| == 4 * |ws|
  {
    if ws == [] then [] else WordBytes(ws[0]) + Serialize(ws[1..])
  }

  /** Every four bytes read back as one word with `bytesToWord`. */
  function Deserialize(bs: seq<byte>): (r: seq<word>)
    requires |bs| % 4 == 0
    ensures |r| == |bs| / 4
  {
    if bs == [] then [] else [BytesToWord(bs[..4])] + Deserialize(bs[4..])
  }

  lemma {:induction false} SerializeAppend(a: seq<word>, b: seq<word>)
    ensures Serialize(a + b) == Serialize(a) + Serialize(b)
    decreases |a|
  {
    if a != [] {
      assert (a + b)[1..] == a[1..] + b;
      SerializeAppend(a[1..], b);
    } else {
      assert a + b == b;
    }
  }

  /** The four bytes of word i. */
  lemma {:induction false} SerializeAt(ws: seq<word>, i: nat)
    requires i < |ws|
    ensures Serialize(ws)[4 * i..4 * i + 4] == WordBytes(ws[i])
    decreases i
  {
    if i > 0 {
      SerializeAt(ws[1..], i - 1);
      var r := Serialize(ws);
      assert r[4..] == Serialize(ws[1..]);
      assert r[4 * i..4 * i + 4] == r[4..][4 * (i - 1)..4 * (i - 1) + 4];
    }
  }

  /** Serialization loses nothing. */
  lemma {:induction false} DeserializeSerialize(ws: seq<word>)
    ensures Deserialize(Serialize(ws)) == ws
    decreases |ws|
  {
    if ws != [] {
      var r := Serialize(ws);
      assert r[..4] == WordBytes(ws[0]) && r[4..] == Serialize(ws[1..]);
      WordRoundTrip(ws[0]);
      DeserializeSerialize(ws[1..]);
    }
  }

  /** Four words serialize to their four byte groups, in order. */
  lemma SerializeFour(ws: seq<word>)
    requires |ws| == 4
    ensures Serialize(ws) == WordBytes(ws[0]) + WordBytes(ws[1]) + WordBytes(ws[2]) + WordBytes(ws[3])
  {
    var t1, t2, t3 := ws[1..], ws[2..], ws[3..];
    assert t1[1..] == t2 && t2[1..] == t3 && t3[1..] == [];
    SerializeCons(ws);
    SerializeCons(t1);
    SerializeCons(t2);
    SerializeCons(t3);
    ConcatChain(Serialize(ws), WordBytes(ws[0]), Serialize(t1), WordBytes(ws[1]), Serialize(t2),
                WordBytes(ws[2]), Serialize(t3), WordBytes(ws[3]), Serialize(t3[1..]));
  }

  lemma ConcatChain(x: seq<byte>, a: seq<byte>, x1: seq<byte>, b: seq<byte>, x2: seq<byte>,
                    c: seq<byte>, x3: seq<byte>, d: seq<byte>, x4: seq<byte>)
    requires x == a + x1 && x1 == b + x2 && x2 == c + x3 && x3 == d + x4 && x4 == []
    ensures x == a + b + c + d
  {
    assert d + x4 == d;
  }

  lemma SerializeCons(ws: seq<word>)
    requires ws != []
    ensures Serialize(ws) == WordBytes(ws[0]) + Serialize(ws[1..])
  {
  }

  /** The bytes of the constant words: sigma spells "expand 32-byte k", and
      the code's tau spells "expand 12-byte k" (word 2 is 0x79622d32, where
      the reference tau has 0x79622d36, "6-by"). */
  lemma ConstantsSpell()
    ensures Serialize(Sigma) == [0x65, 0x78, 0x70, 0x61, 0x6e, 0x64, 0x20, 0x33,
                                 0x32, 0x2d, 0x62, 0x79, 0x74, 0x65, 0x20, 0x6b]
    ensures Serialize(Tau) == [0x65, 0x78, 0x70, 0x61, 0x6e, 0x64, 0x20, 0x31,
                               0x32, 0x2d, 0x62, 0x79, 0x74, 0x65, 0x20, 0x6b]
  {
    SerializeFour(Sigma);
    SerializeFour(Tau);
    ConstantWordBytes();
    Spell([0x65, 0x78, 0x70, 0x61], [0x6e, 0x64, 0x20, 0x33], [0x32, 0x2d, 0x62, 0x79], [0x74, 0x65, 0x20, 0x6b]);
    Spell([0x65, 0x78, 0x70, 0x61], [0x6e, 0x64, 0x20, 0x31], [0x32, 0x2d, 0x62, 0x79], [0x74, 0x65, 0x20, 0x6b]);
  }

  lemma ConstantWordBytes()
    ensures WordBytes(0x61707865) == [0x65, 0x78, 0x70, 0x61]
    ensures WordBytes(0x3320646e) == [0x6e, 0x64, 0x20, 0x33]
    ensures WordBytes(0x3120646e) == [0x6e, 0x64, 0x20, 0x31]
    ensures WordBytes(0x79622d32) == [0x32, 0x2d, 0x62, 0x79]
    ensures WordBytes(0x6b206574) == [0x74, 0x65, 0x20, 0x6b]
  {
  }

  lemma Spell(a: seq<byte>, b: seq<byte>, c: seq<byte>, d: seq<byte>)
    requires |a| == 4 && |b| == 4 && |c| == 4 && |d| == 4
    ensures a + b + c + d == [a[0], a[1], a[2], a[3], b[0], b[1], b[2], b[3],
                              c[0], c[1], c[2], c[3], d[0], d[1], d[2], d[3]]
  {
  }

  predicate ValidKeyLength(key: seq<byte>)
  {
    |key| == 16 || |key| == 32
  }

  /** The four key words starting at byte `offset`. */
  function KeyWords(key: seq<byte>, offset: nat): (r: seq<word>)
    requires offset + 16 <= |key|
    ensures |r| == 4
  {
    [BytesToWord(key[offset..offset + 4]), BytesToWord(key[offset + 4..offset + 8]),
     BytesToWord(key[offset + 8..offset + 12]), BytesToWord(key[offset + 12..offset + 16])]
  }

  /** The low and high halves of the block counter: `static_cast<uint32_t>`
      of the counter and of the counter shifted right by 32. */
  function CounterLow(counter: u64): word
  {
    counter % 0x1_0000_0000
  }

  function CounterHigh(counter: u64): word
  {
    (counter / 0x1_0000_0000) % 0x1_0000_0000
  }

  /** The state `blockGenerator` builds before the rounds: constants on the
      diagonal, key words at 1..4 and 11..14 (a 16-byte key fills both with
      the same four words), the nonce at 6..7, the counter at 8..9. */
  function InitialState(key: seq<byte>, nonce: seq<byte>, counter: u64): (s: seq<word>)
    requires ValidKeyLength(key) && |nonce| >= 8
    ensures |s| == 16
  {
    var k := if |key| == 32 then Sigma else Tau;
    var first := KeyWords(key, 0);
    var second := if |key| == 32 then KeyWords(key, 16) else KeyWords(key, 0);
    [k[0], first[0], first[1], first[2], first[3],
     k[1], BytesToWord(nonce[0..4]), BytesToWord(nonce[4..8]), CounterLow(counter), CounterHigh(counter),
     k[2], second[0], second[1], second[2], second[3], k[3]]
  }

  /** Sixteen key bytes come back out of their four words. */
  lemma KeyWordsBytes(key: seq<byte>, offset: nat)
    requires offset + 16 <= |key|
    ensures Serialize(KeyWords(key, offset)) == key[offset..offset + 16]
  {
    var ws := KeyWords(key, offset);
    SerializeFour(ws);
    var k0, k1, k2, k3 := key[offset..offset + 4], key[offset + 4..offset + 8],
                          key[offset + 8..offset + 12], key[offset + 12..offset + 16];
    BytesRoundTrip(k0);
    BytesRoundTrip(k1);
    BytesRoundTrip(k2);
    BytesRoundTrip(k3);
    assert key[offset..offset + 16] == k0 + k1 + k2 + k3;
  }

  /** The nonce words hold the first eight nonce bytes. */
  lemma NonceWordsBytes(nonce: seq<byte>)
    requires |nonce| >= 8
    ensures Serialize([BytesToWord(nonce[0..4]), BytesToWord(nonce[4..8])]) == nonce[..8]
  {
    var ws := [BytesToWord(nonce[0..4]), BytesToWord(nonce[4..8])];
    SerializeAt(ws, 0);
    SerializeAt(ws, 1);
    BytesRoundTrip(nonce[0..4]);
    BytesRoundTrip(nonce[4..8]);
    var r := Serialize(ws);
    assert r == r[0..4] + r[4..8];
  }

  /** The two counter words hold the whole 64-bit counter. */
  lemma CounterWords(counter: u64)
    ensures CounterLow(counter) + 0x1_0000_0000 * CounterHigh(counter) == counter
  {
    DivModUnique(counter / 0x1_0000_0000, 0x1_0000_0000, 0, counter / 0x1_0000_0000);
  }

  /** Every input of the block function can be read back from the initial
      state: the layout loses nothing and mixes nothing. */
  lemma InitialStateLayout(key: seq<byte>, nonce: seq<byte>, counter: u64)
    requires ValidKeyLength(key) && |nonce| >= 8
    ensures var s := InitialState(key, nonce, counter);
      && [s[0], s[5], s[10], s[15]] == (if |key| == 32 then Sigma else Tau)
      && Serialize(s[1..5]) == key[..16]
      && Serialize(s[11..15]) == (if |key| == 32 then key[16..32] else key[..16])
      && Serialize(s[6..8]) == nonce[..8]
      && s[8] as int + 0x1_0000_0000 * s[9] as int == counter
  {
    var s := InitialState(key, nonce, counter);
    KeyWordsBytes(key, 0);
    assert s[1..5] == KeyWords(key, 0);
    if |key| == 32 {
      KeyWordsBytes(key, 16);
      assert s[11..15] == KeyWords(key, 16);
    } else {
      assert s[11..15] == KeyWords(key, 0);
    }
    NonceWordsBytes(nonce);
    assert s[6..8] == [BytesToWord(nonce[0..4]), BytesToWord(nonce[4..8])];
    CounterWords(counter);
  }

  /** Equal words come from equal bytes. */
  lemma BytesToWordInjective(a: seq<byte>, b: seq<byte>)
    requires |a| == 4 && |b| == 4 && BytesToWord(a) == BytesToWord(b)
    ensures a == b
  {
    BytesRoundTrip(a);
    BytesRoundTrip(b);
  }

  /** Equal key words come from equal key bytes. */
  lemma KeyWordsInjective(a: seq<byte>, oa: nat, b: seq<byte>, ob: nat)
    requires oa + 16 <= |a| && ob + 16 <= |b| && KeyWords(a, oa) == KeyWords(b, ob)
    ensures a[oa..oa + 16] == b[ob..ob + 16]
  {
    KeyWordsBytes(a, oa);
    KeyWordsBytes(b, ob);
  }

  /** The initial state in slices: the key words, the constant word that
      tells the key lengths apart, the nonce and counter words. */
  lemma InitialStateParts(key: seq<byte>, nonce: seq<byte>, counter: u64)
    requires ValidKeyLength(key) && |nonce| >= 8
    ensures var s := InitialState(key, nonce, counter);
      && s[1..5] == KeyWords(key, 0)
      && s[11..15] == (if |key| == 32 then KeyWords(key, 16) else KeyWords(key, 0))
      && s[5] == (if |key| == 32 then 0x3320646e else 0x3120646e)
      && s[6] == BytesToWord(nonce[0..4]) && s[7] == BytesToWord(nonce[4..8])
      && s[8] == CounterLow(counter) && s[9] == CounterHigh(counter)
  {
    var s := InitialState(key, nonce, counter);
    var first := KeyWords(key, 0);
    var second := if |key| == 32 then KeyWords(key, 16) else KeyWords(key, 0);
    assert s[1..5] == [s[1], s[2], s[3], s[4]] == first;
    assert s[11..15] == [s[11], s[12], s[13], s[14]] == second;
  }

  /** Different inputs give different initial states: the key length, the
      key, the first eight nonce bytes and the counter can all be read back. */
  lemma InitialStateInjective(k1: seq<byte>, n1: seq<byte>, c1: u64, k2: seq<byte>, n2: seq<byte>, c2: u64)
    requires ValidKeyLength(k1) && |n1| >= 8 && ValidKeyLength(k2) && |n2| >= 8
    requires InitialState(k1, n1, c1) == InitialState(k2, n2, c2)
    ensures k1 == k2 && n1[..8] == n2[..8] && c1 == c2
  {
    InitialStateParts(k1, n1, c1);
    InitialStateParts(k2, n2, c2);
    assert |k1| == |k2|;
    KeyWordsInjective(k1, 0, k2, 0);
    if |k1| == 32 {
      KeyWordsInjective(k1, 16, k2, 16);
      assert k1 == k1[0..16] + k1[16..32] && k2 == k2[0..16] + k2[16..32];
    } else {
      assert k1 == k1[0..16] && k2 == k2[0..16];
    }
    BytesToWordInjective(n1[0..4], n2[0..4]);
    BytesToWordInjective(n1[4..8], n2[4..8]);
    assert n1[..8] == n1[0..4] + n1[4..8] && n2[..8] == n2[0..4] + n2[4..8];
    CounterWords(c1);
    CounterWords(c2);
  }

  /** The final loop of `blockGenerator`: word i of the output is word i of
      the working state plus word i of the initial state, modulo 2^32. */
  function AddStates(x: seq<word>, y: seq<word>): (r: seq<word>)
    requires |x| == 16 && |y| == 16
    ensures |r| == 16
  {
    seq(16, i requires 0 <= i < 16 => Add32(x[i], y[i]))
  }

  /** The number of iterations of the round loop (two rounds each). */
  const DoubleRounds: nat := 10

  /** `blockGenerator` on a valid key: 64 bytes of keystream. The value is
      one step of a recursion that stops at once (`BlockStep`), so that the
      verifier looks behind it only where a proof calls `BlockDefinition`;
      the stream cipher's proofs treat a block as 64 bytes and no more. */
  function Block(key: seq<byte>, nonce: seq<byte>, counter: u64): (r: seq<byte>)
    requires ValidKeyLength(key) && |nonce| >= 8
    ensures |r| == 64
  {
    BlockStep(key, nonce, counter, 1)
  }

  function BlockStep(key: seq<byte>, nonce: seq<byte>, counter: u64, steps: nat): (r: seq<byte>)
    requires ValidKeyLength(key) && |nonce| >= 8
    ensures |r| == 64
    decreases steps, counter
  {
    if steps == 0 then
      var init := InitialState(key, nonce, counter);
      Serialize(AddStates(Rounds(init, DoubleRounds), init))
    else
      BlockStep(key, nonce, counter, steps - 1)
  }

  /** The block is the little-endian serialization of the state after the
      double rounds, added word by word to the initial state. */
  lemma BlockDefinition(key: seq<byte>, nonce: seq<byte>, counter: u64)
    requires ValidKeyLength(key) && |nonce| >= 8
    ensures var init := InitialState(key, nonce, counter);
      Block(key, nonce, counter) == Serialize(AddStates(Rounds(init, DoubleRounds), init))
  {
    assert BlockStep(key, nonce, counter, 1) == BlockStep(key, nonce, counter, 0);
  }

  /** Word i of serialized words reads back from bytes 4i..4i+3. */
  lemma SerializedWord(ws: seq<word>, i: nat)
    requires i < |ws|
    ensures BytesToWord(Serialize(ws)[4 * i..4 * i + 4]) == ws[i]
  {
    SerializeAt(ws, i);
    WordRoundTrip(ws[i]);
  }

  /** Reading the block back four bytes at a time gives the sum of the
      final working state and the initial state. */
  lemma BlockWords(key: seq<byte>, nonce: seq<byte>, counter: u64, i: nat)
    requires ValidKeyLength(key) && |nonce| >= 8 && i < 16
    ensures var init := InitialState(key, nonce, counter);
      BytesToWord(Block(key, nonce, counter)[4 * i..4 * i + 4]) == Add32(Rounds(init, DoubleRounds)[i], init[i])
  {
    var init := InitialState(key, nonce, counter);
    BlockDefinition(key, nonce, counter);
    SerializedWord(AddStates(Rounds(init, DoubleRounds), init), i);
  }

  /** The initial state word by word, in the order the code fills it. */
  lemma InitialStateWords(key: seq<byte>, nonce: seq<byte>, counter: u64)
    requires ValidKeyLength(key) && |nonce| >= 8
    ensures var s, k := InitialState(key, nonce, counter), (if |key| == 32 then Sigma else Tau);
      && s[0] == k[0] && s[5] == k[1] && s[10] == k[2] && s[15] == k[3]
      && (forall j :: 1 <= j < 5 ==> s[j] == BytesToWord(key[(j - 1) * 4..(j - 1) * 4 + 4]))
      && (forall j :: 11 <= j < 15 ==>
            s[j] == BytesToWord(if |key| == 32 then key[16 + (j - 11) * 4..16 + (j - 11) * 4 + 4]
                                else key[(j - 11) * 4..(j - 11) * 4 + 4]))
      && s[6] == BytesToWord(nonce[0..4]) && s[7] == BytesToWord(nonce[4..8])
      && s[8] == CounterLow(counter) && s[9] == CounterHigh(counter)
  {
  }

  /** One of the key loops of `blockGenerator`: four words read from
      `key[offset..offset + 16]` stored at positions pos..pos+3. */
  method StoreKeyWords(state: array<word>, pos: nat, key: seq<byte>, offset: nat)
    requires pos + 4 <= state.Length && offset + 16 <= |key|
    modifies state
    ensures forall j :: pos <= j < pos + 4 ==> state[j] == BytesToWord(key[offset + (j - pos) * 4..offset + (j - pos) * 4 + 4])
    ensures forall j :: 0 <= j < state.Length && !(pos <= j < pos + 4) ==> state[j] == old(state[j])
  {
    for i := 0 to 4
      invariant forall j :: pos <= j < pos + i ==> state[j] == BytesToWord(key[offset + (j - pos) * 4..offset + (j - pos) * 4 + 4])
      invariant forall j :: 0 <= j < state.Length && !(pos <= j < pos + i) ==> state[j] == old(state[j])
    {
      state[pos + i] := BytesToWord(key[offset + i * 4..offset + i * 4 + 4]);
    }
  }

  /** The state-filling part of `blockGenerator`, once the constants are
      chosen. The second key loop reads `key[(4 + i) * 4..]`, that is
      offset 16, for a 32-byte key and repeats offset 0 for a 16-byte key. */
  method FillState(currentState: array<word>, constants: seq<word>, key: seq<byte>, nonce: seq<byte>, blockCounter: u64)
    requires currentState.Length == 16 && ValidKeyLength(key) && |nonce| >= 8
    requires constants == if |key| == 32 then Sigma else Tau
    modifies currentState
    ensures currentState[..] == InitialState(key, nonce, blockCounter)
  {
    currentState[0] := constants[0];
    currentState[5] := constants[1];
    currentState[10] := constants[2];
    currentState[15] := constants[3];
    StoreKeyWords(currentState, 1, key, 0);
    if |key| == 32 {
      StoreKeyWords(currentState, 11, key, 16);
    } else {
      StoreKeyWords(currentState, 11, key, 0);
    }
    currentState[6] := BytesToWord(nonce[0..4]);
    currentState[7] := BytesToWord(nonce[4..8]);
    currentState[8] := CounterLow(blockCounter);
    currentState[9] := CounterHigh(blockCounter);
    FilledState(currentState[..], key, nonce, blockCounter);
  }

  /** A state holding, position by position, what the filling code stores is
      the initial state. */
  lemma FilledState(st: seq<word>, key: seq<byte>, nonce: seq<byte>, counter: u64)
    requires |st| == 16 && ValidKeyLength(key) && |nonce| >= 8
    requires var k := if |key| == 32 then Sigma else Tau;
      st[0] == k[0] && st[5] == k[1] && st[10] == k[2] && st[15] == k[3]
    requires forall j :: 1 <= j < 5 ==> st[j] == BytesToWord(key[(j - 1) * 4..(j - 1) * 4 + 4])
    requires var offset := if |key| == 32 then 16 else 0;
      forall j :: 11 <= j < 15 ==> st[j] == BytesToWord(key[offset + (j - 11) * 4..offset + (j - 11) * 4 + 4])
    requires st[6] == BytesToWord(nonce[0..4]) && st[7] == BytesToWord(nonce[4..8])
    requires st[8] == CounterLow(counter) && st[9] == CounterHigh(counter)
    ensures st == InitialState(key, nonce, counter)
  {
    InitialStateWords(key, nonce, counter);
    var init := InitialState(key, nonce, counter);
    assert forall j :: 1 <= j < 5 ==> st[j] == init[j];
    assert forall j :: 11 <= j < 15 ==> st[j] == init[j];
  }

  /** The final loop of `blockGenerator`: adds the states word by word and
      stores each sum little-endian in a 64-byte buffer. */
  method FinalAdd(workingState: array<word>, currentState: array<word>, ghost final: seq<word>, ghost init: seq<word>)
    returns (output: seq<byte>)
    requires workingState.Length == 16 && currentState.Length == 16
    requires |final| == 16 && |init| == 16
    requires forall i :: 0 <= i < 16 ==> workingState[i] == final[i] && currentState[i] == init[i]
    ensures output == Serialize(AddStates(final, init))
  {
    ghost var sum := AddStates(final, init);
    var outputBlock := new byte[64];
    for i := 0 to 16
      invariant forall m :: 0 <= m < 4 * i ==> outputBlock[m] == Serialize(sum)[m]
    {
      var finalWord := Add32(workingState[i], currentState[i]);
      WordToBytes(finalWord, outputBlock, i * 4);
      SerializeAt(sum, i);
      forall m | 4 * i <= m < 4 * i + 4 ensures outputBlock[m] == Serialize(sum)[m] {
        assert outputBlock[m] == outputBlock[4 * i..4 * i + 4][m - 4 * i];
        assert Serialize(sum)[m] == Serialize(sum)[4 * i..4 * i + 4][m - 4 * i];
      }
    }
    output := outputBlock[..];
  }

  lemma BlockUnfolds(key: seq<byte>, nonce: seq<byte>, counter: u64, init: seq<word>, final: seq<word>)
    requires ValidKeyLength(key) && |nonce| >= 8
    requires init == InitialState(key, nonce, counter) && final == Rounds(init, DoubleRounds)
    ensures Block(key, nonce, counter) == Serialize(AddStates(final, init))
  {
    BlockDefinition(key, nonce, counter);
  }

  /** The copy of the initial state that the rounds work on. */
  method CopyState(currentState: array<word>) returns (workingState: array<word>)
    requires currentState.Length == 16
    ensures fresh(workingState) && workingState[..] == currentState[..]
  {
    workingState := new word[16];
    for i := 0 to 16
      invariant forall j :: 0 <= j < i ==> workingState[j] == currentState[j]
    {
      workingState[i] := currentState[i];
    }
  }

  /** The round loop of `blockGenerator`: ten column-and-row rounds. */
  method RunRounds(workingState: array<word>)
    requires workingState.Length == 16
    modifies workingState
    ensures workingState[..] == Rounds(old(workingState[..]), DoubleRounds)
  {
    ghost var init := workingState[..];
    for i := 0 to DoubleRounds
      invariant workingState[..] == Rounds(init, i)
    {
      ColumnRound(workingState);
      RowRound(workingState);
    }
  }

  /** `blockGenerator`. A key that is neither 16 nor 32 bytes long is
      rejected; the nonce is read at bytes 0..7 without a check. */
  method BlockGenerator(key: seq<byte>, nonce: seq<byte>, blockCounter: u64)
    returns (r: Result<seq<byte>>)
    requires |nonce| >= 8
    ensures ValidKeyLength(key) ==> r == Success(Block(key, nonce, blockCounter))
    ensures !ValidKeyLength(key) ==> r == Failure(InvalidKey)
  {
    var constants: seq<word>;
    if |key| == 32 {
      constants := Sigma;
    } else if |key| == 16 {
      constants := Tau;
    } else {
      return Failure(InvalidKey);
    }
    var currentState := new word[16];
    FillState(currentState, constants, key, nonce, blockCounter);
    ghost var init := currentState[..];

    var workingState := CopyState(currentState);
    RunRounds(workingState);
    ghost var final := workingState[..];
    var output := FinalAdd(workingState, currentState, final, init);
    BlockUnfolds(key, nonce, blockCounter, init, final);
    r := Success(output);
  }
}
