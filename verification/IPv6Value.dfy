/** The 128-bit value of an IPv6 form, and the or-assembly of the parser as additions. */
module IPv6Value {
  import opened Chars
  import opened Numerals
  import opened Reading
  import opened Bits
  import opened IPv6Grammar

  /** Big-endian value of 16-bit words. */
  function FromWords(ws: seq<nat>): nat
  {
    if ws == [] then 0 else FromWords(ws[..|ws| - 1]) * 0x1_0000 + ws[|ws| - 1]
  }

  function GroupsValue(gs: seq<string>): nat
    requires AllGroups(gs)
  {
    FromWords(GroupWords(gs))
  }

  lemma {:induction false} FromWordsConcat(a: seq<nat>, b: seq<nat>)
    ensures FromWords(a + b) == FromWords(a) * Pow2(16 * |b|) + FromWords(b)
  {
    if b == [] {
      assert a + b == a;
    } else {
      var front := b[..|b| - 1];
      FromWordsConcat(a, front);
      assert (a + b)[..|a + b| - 1] == a + front;
      Pow2Sum(16 * |front|, 16);
      Pow2Table();
      Regroup(FromWords(a), Pow2(16 * |front|), FromWords(front), b[|b| - 1]);
    }
  }

  lemma Regroup(x: nat, p: nat, y: nat, w: nat)
    ensures (x * p + y) * 0x1_0000 + w == x * (p * 0x1_0000) + (y * 0x1_0000 + w)
  {
  }

  lemma {:induction false} FromWordsZeros(n: nat)
    ensures FromWords(Zeros(n)) == 0
  {
    if n > 0 {
      FromWordsZeros(n - 1);
      assert Zeros(n)[..n - 1] == Zeros(n - 1);
    }
  }

  lemma {:induction false} FromWordsBound(ws: seq<nat>)
    requires forall i | 0 <= i < |ws| :: ws[i] < 0x1_0000
    ensures FromWords(ws) < Pow2(16 * |ws|)
  {
    if ws != [] {
      FromWordsBound(ws[..|ws| - 1]);
      Pow2Sum(16 * (|ws| - 1), 16);
      Pow2Table();
    }
  }

  lemma GroupBound(g: string)
    requires IsGroup(g)
    ensures HexValue(g) < 0x1_0000
  {
    HexValueBound(g);
    PowTable(|g|);
  }

  lemma GroupsBound(gs: seq<string>)
    requires AllGroups(gs)
    ensures GroupsValue(gs) < Pow2(16 * |gs|)
  {
    forall i | 0 <= i < |gs| ensures GroupWords(gs)[i] < 0x1_0000 {
      GroupBound(gs[i]);
    }
    FromWordsBound(GroupWords(gs));
  }

  lemma QuadWordsValue(q: Quad)
    requires q.Valid()
    ensures FromWords(QuadWords(q)) == q.Value()
  {
    var ws := QuadWords(q);
    assert ws[..1] == [ws[0]] && [ws[0]][..0] == [];
    assert FromWords([ws[0]]) == FromWords([]) * 0x1_0000 + ws[0];
  }

  /** b <<= 16, b |= value: one more group at the low end. */
  lemma PushGroup(gs: seq<string>, g: string)
    requires AllGroups(gs) && IsGroup(g) && |gs| <= 7
    ensures AllGroups(gs + [g])
    ensures Or(Shl(GroupsValue(gs), 16, 128), HexValue(g)) == GroupsValue(gs + [g])
  {
    hide Shl, Pow2, Or;
    var v := GroupsValue(gs);
    GroupsBound(gs);
    GroupBound(g);
    assert GroupWords(gs + [g])[..|gs|] == GroupWords(gs);
    Room(v, 16 * |gs|, 16, 128);
    ShlSmall(v, 16, 128);
    Pow2Table();
    OrDisjoint(v, HexValue(g), 16);
  }

  /** A value of n bits can be shifted by k without loss when n + k bits fit. */
  lemma Room(v: nat, n: nat, k: nat, width: nat)
    requires v < Pow2(n) && n + k <= width
    ensures v * Pow2(k) < Pow2(n + k) <= Pow2(width)
  {
    hide Pow2;
    Pow2Sum(n, k);
    Pow2Monotone(n + k, width);
    Scale(v, Pow2(n), Pow2(k));
  }

  /** An or below bit k passes through an or above bit k. */
  lemma {:induction false} OrHigh(x: nat, c: nat, m: nat, k: nat)
    requires c < Pow2(k)
    ensures Or(x * Pow2(k) + c, m * Pow2(k)) == Or(x, m) * Pow2(k) + c
  {
    hide Or, Pow2;
    Pow2Unfold(k);
    if k == 0 {
      assert x * 1 + c == x && m * 1 == m;
    } else {
      OrHigh(x, c / 2, m, k - 1);
      Double(x, Pow2(k - 1));
      Double(m, Pow2(k - 1));
      Double(Or(x, m), Pow2(k - 1));
      OrDouble(x * Pow2(k - 1) + c / 2, m * Pow2(k - 1), c % 2);
    }
  }

  lemma Pow2Unfold(k: nat)
    ensures Pow2(k) == if k == 0 then 1 else 2 * Pow2(k - 1)
  {
  }

  lemma Double(x: nat, p: nat)
    ensures x * (2 * p) == 2 * (x * p)
  {
  }

  lemma OrDouble(a: nat, b: nat, bit: nat)
    requires bit <= 1
    ensures Or(2 * a + bit, 2 * b) == 2 * Or(a, b) + bit
  {
  }

  /** The two halves of the address around `::` never overlap: the final or adds them. */
  lemma OrHalves(l: seq<string>, b: nat, n: nat)
    requires AllGroups(l) && |l| + n <= 8 && b < Pow2(16 * n)
    ensures Or(GroupsValue(l) * Pow2(16 * (8 - |l|)), b) == GroupsValue(l) * Pow2(16 * (8 - |l|)) + b
  {
    Pow2Monotone(16 * n, 16 * (8 - |l|));
    OrDisjoint(GroupsValue(l), b, 16 * (8 - |l|));
  }

  lemma JoinZeros(l: seq<string>, r: seq<nat>)
    requires AllGroups(l) && |l| + |r| <= 8
    ensures FromWords(GroupWords(l) + Zeros(8 - |l| - |r|) + r) == GroupsValue(l) * Pow2(16 * (8 - |l|)) + FromWords(r)
  {
    hide *;
    var n := 8 - |l| - |r|;
    var z := Zeros(n);
    ZerosLength(n);
    FromWordsConcat(z, r);
    FromWordsZeros(n);
    assert GroupWords(l) + z + r == GroupWords(l) + (z + r);
    FromWordsConcat(GroupWords(l), z + r);
    GroupsValueIs(l);
    assert |z + r| == 8 - |l|;
    assert 0 * Pow2(16 * |r|) == 0;
  }

  lemma ZerosLength(n: nat)
    ensures |Zeros(n)| == n
  {
  }

  /** bits |= b at the end of a form without a quad. */
  lemma AssembleGroups(d: Form)
    requires d.WellFormed()
    ensures d.Full? ==> Or(0, GroupsValue(d.groups)) == FromWords(d.Words())
    ensures d.Compressed? ==>
      Or(GroupsValue(d.left) * Pow2(16 * (8 - |d.left|)), GroupsValue(d.right)) == FromWords(d.Words())
  {
    hide Pow2, FromWords;
    if d.Compressed? {
      GroupsBound(d.right);
      OrHalves(d.left, GroupsValue(d.right), |d.right|);
      JoinZeros(d.left, GroupWords(d.right));
    }
  }

  /** The octets or-ed straight into `bits` while the later groups still sit in `b`, which is
      then shifted by 32 and or-ed in between. */
  lemma AssembleQuad(l: seq<string>, r: seq<string>, q: Quad)
    requires AllGroups(l) && AllGroups(r) && |l| + |r| <= 6 && q.Valid()
    ensures Or(GroupsValue(l) * Pow2(16 * (8 - |l|)) + q.Value(), Shl(GroupsValue(r), 32, 128))
         == FromWords(CompressedQuad(l, r, q).Words())
  {
    hide Pow2, FromWords, Or, Shl, Quad.Value, GroupsValue, Form.Words;
    var m, n := GroupsValue(r), 16 * (6 - |l|);
    GroupsBound(r);
    Room(m, 16 * |r|, 32, 128);
    ShlSmall(m, 32, 128);
    QuadBound(q);
    Pow2Monotone(16 * |r|, n);
    OrBetween(GroupsValue(l), n, m, q.Value());
    assert n + 32 == 16 * (8 - |l|);
    QuadFormValue(l, r, q);
  }

  /** An or of three parts that do not overlap, the middle one coming last. */
  lemma OrBetween(x: nat, n: nat, m: nat, c: nat)
    requires m < Pow2(n) && c < Pow2(32)
    ensures Or(x * Pow2(n + 32) + c, m * Pow2(32)) == x * Pow2(n + 32) + (m * Pow2(32) + c)
  {
    hide Pow2, Or;
    SplitShift(x, n);
    OrHigh(x * Pow2(n), c, m, 32);
    OrDisjoint(x, m, n);
    Spread(x * Pow2(n), m, Pow2(32));
  }

  lemma SplitShift(x: nat, n: nat)
    ensures x * Pow2(n + 32) == (x * Pow2(n)) * Pow2(32)
  {
    hide Pow2;
    Pow2Sum(n, 32);
    Associate(x, Pow2(n), Pow2(32));
  }

  lemma QuadFormValue(l: seq<string>, r: seq<string>, q: Quad)
    requires AllGroups(l) && AllGroups(r) && |l| + |r| <= 6 && q.Valid()
    ensures FromWords(CompressedQuad(l, r, q).Words())
         == GroupsValue(l) * Pow2(16 * (8 - |l|)) + (GroupsValue(r) * Pow2(32) + q.Value())
  {
    hide *;
    var w := GroupWords(r) + QuadWords(q);
    QuadFormWords(l, r, q);
    JoinZeros(l, w);
    QuadWordsValue(q);
    FromWordsConcat(GroupWords(r), QuadWords(q));
    GroupsValueIs(r);
    assert 16 * |QuadWords(q)| == 32;
  }

  lemma GroupsValueIs(gs: seq<string>)
    requires AllGroups(gs)
    ensures GroupsValue(gs) == FromWords(GroupWords(gs))
  {
  }

  lemma QuadFormWords(l: seq<string>, r: seq<string>, q: Quad)
    requires AllGroups(l) && AllGroups(r) && |l| + |r| <= 6 && q.Valid()
    ensures CompressedQuad(l, r, q).WellFormed() && |QuadWords(q)| == 2
    ensures CompressedQuad(l, r, q).Words()
         == GroupWords(l) + Zeros(8 - |l| - |GroupWords(r) + QuadWords(q)|) + (GroupWords(r) + QuadWords(q))
  {
    var z := Zeros(6 - |l| - |r|);
    assert GroupWords(l) + z + GroupWords(r) + QuadWords(q) == GroupWords(l) + z + (GroupWords(r) + QuadWords(q));
  }

  lemma QuadBound(q: Quad)
    requires q.Valid()
    ensures q.Value() < Pow2(32)
  {
    Pow2Table();
  }

  lemma Associate(x: nat, y: nat, z: nat)
    ensures x * (y * z) == (x * y) * z
  {
  }

  lemma Spread(x: nat, y: nat, p: nat)
    ensures (x + y) * p == x * p + y * p
  {
  }

  /** Six groups and a quad without `::`: `bits` holds only the quad when `b` is or-ed in. */
  lemma AssembleFullQuad(gs: seq<string>, q: Quad)
    requires AllGroups(gs) && |gs| == 6 && q.Valid()
    ensures Or(q.Value(), Shl(GroupsValue(gs), 32, 128)) == FromWords(FullQuad(gs, q).Words())
  {
    hide Pow2, FromWords, Or, Shl, Quad.Value;
    AssembleQuad([], gs, q);
    assert GroupsValue([]) == 0 by { NoGroups(); }
    assert CompressedQuad([], gs, q).Words() == FullQuad(gs, q).Words();
  }

  lemma NoGroups()
    ensures GroupsValue([]) == 0
  {
  }
}
