/** The table of partial products and the byte-wise update loops that read it. */
module Tables {
  import opened Words
  import opened Reflection
  import opened Division

  /** The width of the built-in unsigned type that holds n bits. */
  function RegWidth(n: nat): (w: nat)
    requires n <= 64
    ensures n <= w && w in {8, 16, 32, 64}
  {
    if n <= 8 then 8 else if n <= 16 then 16 else if n <= 32 then 32 else 64
  }

  /** The entry at the index whose bits are j: what dividing j out of an empty register
      leaves behind. */
  function TableEntry(n: nat, p: Word, reflect: bool, j: Word): (e: Word)
    requires 1 <= n <= |p|
    ensures |e| == |p|
  {
    if reflect then Reflect(Steps(n, Zeros(|p|), p, j), n) else Steps(n, Zeros(|p|), p, Rev(j))
  }

  ghost predicate IsTable(table: seq<Word>, subOrder: nat, n: nat, p: Word, reflect: bool)
    requires 1 <= n <= |p|
  {
    && |table| == Pow2(subOrder)
    && forall i :: 0 <= i < |table| ==> table[i] == TableEntry(n, p, reflect, Bin(i, subOrder))
  }

  lemma Lookup(table: seq<Word>, subOrder: nat, n: nat, p: Word, reflect: bool, j: Word)
    requires 1 <= n <= |p| && IsTable(table, subOrder, n, p, reflect) && |j| == subOrder
    ensures Val(j) < |table| && table[Val(j)] == TableEntry(n, p, reflect, j)
  {
    ValBound(j);
    BinVal(j);
  }

  /** A value that fits k bits, held in a wider type. */
  lemma {:induction false} BinWiden(d: nat, k: nat, w: nat)
    requires d < Pow2(k) && k <= w
    ensures Bin(d, w)[..k] == Bin(d, k)
    ensures forall j: Word :: |j| == k ==> Val(j + Bin(d, w)[k..]) == Val(j)
  {
    if k == 0 {
      BinZero(w);
      ValZeros(w);
      forall j: Word | |j| == k
        ensures Val(j + Bin(d, w)[k..]) == Val(j)
      {
        assert j + Bin(d, w)[k..] == Zeros(w) && j == [];
      }
    } else {
      BinWiden(d / 2, k - 1, w - 1);
      assert Bin(d, w)[..k] == [d % 2 == 1] + Bin(d / 2, w - 1)[..k - 1];
      forall j: Word | |j| == k
        ensures Val(j + Bin(d, w)[k..]) == Val(j)
      {
        assert (j + Bin(d, w)[k..])[1..] == j[1..] + Bin(d / 2, w - 1)[k - 1..];
      }
    }
  }

  lemma {:induction false} BinZero(w: nat)
    ensures Bin(0, w) == Zeros(w)
  {
    if w > 0 {
      BinZero(w - 1);
    }
  }

  /** Where the loop below puts the entry of dividend d. */
  function IndexOf(d: nat, k: nat, reflect: bool): (i: nat)
    requires d < Pow2(k)
    ensures i < Pow2(k)
  {
    var at := if reflect then Rev(Bin(d, k)) else Bin(d, k);
    ValBound(at);
    Val(at)
  }

  lemma IndexOfTwice(d: nat, k: nat, reflect: bool)
    requires d < Pow2(k)
    ensures IndexOf(IndexOf(d, k, reflect), k, reflect) == d
  {
    var at := if reflect then Rev(Bin(d, k)) else Bin(d, k);
    BinVal(at);
    assert Rev(Rev(Bin(d, k))) == Bin(d, k);
    ValBin(d, k);
  }

  /** The entries of the first count dividends are in place. */
  ghost predicate Filled(table: seq<Word>, count: nat, k: nat, n: nat, p: Word, reflect: bool)
    requires 1 <= n <= |p|
  {
    && |table| == Pow2(k) >= count
    && forall d: nat :: d < count ==>
         table[IndexOf(d, k, reflect)] == TableEntry(n, p, reflect, Bin(IndexOf(d, k, reflect), k))
  }

  /** What one round of the loop writes, and where. */
  lemma RoundWrites(d: nat, k: nat, n: nat, p: Word, reflect: bool, word: Word)
    requires 1 <= n <= |p| && k <= |word| && d < Pow2(k) && word == Bin(d, |word|)
    ensures var at := if reflect then Reflect(word, k) else word;
            var r := Steps(n, Zeros(|p|), p, InputBits(word, k, false));
            && Val(at) == IndexOf(d, k, reflect)
            && (if reflect then Reflect(r, n) else r) == TableEntry(n, p, reflect, Bin(IndexOf(d, k, reflect), k))
  {
    var at := if reflect then Reflect(word, k) else word;
    var here := if reflect then Rev(Bin(d, k)) else Bin(d, k);
    BinWiden(d, k, |word|);
    assert at == here + word[k..];
    assert Val(at) == Val(here);
    BinVal(here);
  }

  lemma FillNext(table: seq<Word>, d: nat, k: nat, n: nat, p: Word, reflect: bool, e: Word)
    requires 1 <= n <= |p| && d < Pow2(k) && Filled(table, d, k, n, p, reflect)
    requires e == TableEntry(n, p, reflect, Bin(IndexOf(d, k, reflect), k))
    ensures Filled(table[IndexOf(d, k, reflect) := e], d + 1, k, n, p, reflect)
  {
    hide IndexOf, TableEntry;
    forall c: nat | c < d
      ensures IndexOf(c, k, reflect) != IndexOf(d, k, reflect)
    {
      IndexOfTwice(c, k, reflect);
      IndexOfTwice(d, k, reflect);
    }
  }

  lemma FilledIsTable(table: seq<Word>, k: nat, n: nat, p: Word, reflect: bool)
    requires 1 <= n <= |p| && Filled(table, Pow2(k), k, n, p, reflect)
    ensures IsTable(table, k, n, p, reflect)
  {
    forall i: nat | i < |table|
      ensures table[i] == TableEntry(n, p, reflect, Bin(i, k))
    {
      IndexOfTwice(i, k, reflect);
      var d := IndexOf(i, k, reflect);
      assert table[IndexOf(d, k, reflect)] == TableEntry(n, p, reflect, Bin(IndexOf(d, k, reflect), k));
    }
  }

  /** Every possible dividend, divided bit by bit from an empty register. */
  method MakePartialXorProductsTable(subOrder: nat, registerLength: nat, truncatedDivisor: Word,
                                     reflect: bool)
    returns (table: array<Word>)
    requires 0 < subOrder < 64 && 1 <= registerLength <= |truncatedDivisor|
    ensures fresh(table)
    ensures IsTable(table[..], subOrder, registerLength, truncatedDivisor, reflect)
  {
    hide TableEntry, IndexOf, Bin, Val, Pow2, Reflect, Steps, InputBits, IsTable;
    table := new Word[Pow2(subOrder)](_ => []);
    var width := RegWidth(subOrder + 1);
    var dividend := 0;
    while dividend < table.Length
      invariant 0 <= dividend <= table.Length == Pow2(subOrder)
      invariant Filled(table[..], dividend, subOrder, registerLength, truncatedDivisor, reflect)
    {
      var word := Bin(dividend, width);
      var remainder := CrcModuloWordUpdate(registerLength, Zeros(|truncatedDivisor|), word,
                                           truncatedDivisor, subOrder, false);
      var at := ReflectOptionally(word, reflect, subOrder);
      remainder := ReflectOptionally(remainder, reflect, registerLength);
      RoundWrites(dividend, subOrder, registerLength, truncatedDivisor, reflect, word);
      FillNext(table[..], dividend, subOrder, registerLength, truncatedDivisor, reflect, remainder);
      table[Val(at)] := remainder;
      dividend := dividend + 1;
    }
    FilledIsTable(table[..], subOrder, registerLength, truncatedDivisor, reflect);
  }
}
