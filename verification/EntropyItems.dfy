/** Huffman-coded data as a sequence of symbols and additional bits, how it is spelled in bits,
    and how a decoder reads it back. */
module EntropyItems {
  import opened Shifts
  import opened BitStrings
  import opened HuffmanDerive

  /** A symbol of the numbered table, or a field of additional bits. */
  datatype Item = Symbol(table: nat, symbol: nat) | Extra(value: nat, size: nat)

  type Items = seq<Item>
  type Tables = seq<Derived>

  /** The bits of one item.  A symbol without a code has none. */
  function Spell(i: Item, d: Tables): Bits {
    match i
    case Extra(v, n) => ToBits(v, n)
    case Symbol(t, s) =>
      if t < |d| && s < |d[t].ehufco| && s < |d[t].ehufsi| then Word(d[t], s) else []
  }

  function ItemBits(items: Items, d: Tables): Bits {
    if items == [] then [] else Spell(items[0], d) + ItemBits(items[1..], d)
  }

  lemma Associative<T>(a: seq<T>, b: seq<T>, c: seq<T>)
    ensures a + b + c == a + (b + c)
  {
  }

  lemma {:induction false} ItemBitsAppend(a: Items, b: Items, d: Tables)
    ensures ItemBits(a + b, d) == ItemBits(a, d) + ItemBits(b, d)
  {
    hide Spell;
    if a == [] {
      assert a + b == b;
    } else {
      ItemBitsAppend(a[1..], b, d);
      assert (a + b)[1..] == a[1..] + b;
    }
  }

  lemma ItemBitsCons(i: Item, more: Items, d: Tables)
    ensures ItemBits([i] + more, d) == Spell(i, d) + ItemBits(more, d)
  {
    assert ([i] + more)[1..] == more;
  }

  lemma NothingSpelled(d: Tables, rest: Bits)
    ensures ItemBits([], d) == [] && ItemBits([], d) + rest == rest
  {
  }

  /** The symbol has a code, or the field fits its size. */
  ghost predicate HasSpelling(i: Item, d: Tables) {
    match i
    case Symbol(t, s) => t < |d| && HasCode(d[t], s)
    case Extra(v, n) => v < Pow2(n)
  }

  ghost predicate Encodable(items: Items, d: Tables) {
    forall i <- items :: HasSpelling(i, d)
  }

  lemma EncodableAppend(a: Items, b: Items, d: Tables)
    ensures Encodable(a + b, d) <==> Encodable(a, d) && Encodable(b, d)
  {
    if Encodable(a + b, d) {
      forall i | i in b ensures i in a + b {
      }
      forall i | i in a ensures i in a + b {
      }
    }
  }

  ghost predicate Decodable(d: Tables) {
    forall t <- d :: PrefixCode(t)
  }

  /** How often a table's symbol occurs. */
  function Uses(items: Items, table: nat, symbol: nat): nat {
    if items == [] then 0
    else Uses(items[..|items| - 1], table, symbol) + if items[|items| - 1] == Symbol(table, symbol) then 1 else 0
  }

  lemma UsesSnoc(items: Items, i: Item, table: nat, symbol: nat)
    ensures Uses(items + [i], table, symbol) == Uses(items, table, symbol) + if i == Symbol(table, symbol) then 1 else 0
  {
    assert (items + [i])[..|items|] == items;
  }

  /** It is the multiplicity of the symbol. */
  lemma {:induction false} UsesIsMultiplicity(items: Items, table: nat, symbol: nat)
    ensures Uses(items, table, symbol) == multiset(items)[Symbol(table, symbol)]
  {
    if items != [] {
      UsesIsMultiplicity(items[..|items| - 1], table, symbol);
      assert items == items[..|items| - 1] + [items[|items| - 1]];
    }
  }

  lemma {:induction false} UsedWhenPresent(items: Items, table: nat, symbol: nat)
    ensures Symbol(table, symbol) in items <==> Uses(items, table, symbol) > 0
  {
    if items != [] {
      UsedWhenPresent(items[..|items| - 1], table, symbol);
      assert items == items[..|items| - 1] + [items[|items| - 1]];
    }
  }

  // ---------- reading ----------

  ghost predicate Begins(d: Derived, s: nat, bits: Bits) {
    HasCode(d, s) && s < |d.ehufco| && Word(d, s) <= bits
  }

  /** The symbol whose code word comes next, and the bits behind it. */
  ghost function ReadSymbol(d: Derived, bits: Bits): Option<(nat, Bits)> {
    if exists s: nat :: Begins(d, s, bits) then
      var s: nat :| Begins(d, s, bits);
      Some((s, bits[|Word(d, s)|..]))
    else None
  }

  /** The next n bits as a number, and the bits behind them. */
  ghost function ReadBits(n: nat, bits: Bits): Option<(nat, Bits)> {
    if n <= |bits| then Some((FromBits(bits[..n]), bits[n..])) else None
  }

  lemma SymbolIsRead(d: Derived, s: nat, rest: Bits)
    requires PrefixCode(d) && HasCode(d, s)
    ensures ReadSymbol(d, Word(d, s) + rest) == Some((s, rest))
  {
    hide Word;
    var bits := Word(d, s) + rest;
    assert Begins(d, s, bits);
    forall t: nat | Begins(d, t, bits) ensures t == s {
      var x, y := Word(d, t), Word(d, s);
      assert x <= y || y <= x;
    }
  }

  lemma BitsAreRead(v: nat, n: nat, rest: Bits)
    requires v < Pow2(n)
    ensures ReadBits(n, ToBits(v, n) + rest) == Some((v, rest))
  {
    hide ToBits, FromBits, Pow2;
    FromToBits(v, n);
    assert (ToBits(v, n) + rest)[..n] == ToBits(v, n);
  }

  lemma SpellSymbol(d: Tables, t: nat, s: nat)
    requires Decodable(d) && t < |d| && HasCode(d[t], s)
    ensures PrefixCode(d[t]) && s < |d[t].ehufco| && Spell(Symbol(t, s), d) == Word(d[t], s)
  {
    assert d[t] in d;
  }

  lemma EncodableSymbol(d: Tables, t: nat, s: nat, more: Items)
    requires Encodable([Symbol(t, s)] + more, d)
    ensures t < |d| && HasCode(d[t], s) && Encodable(more, d)
  {
    var all := [Symbol(t, s)] + more;
    assert all[0] in all;
    forall i | i in more ensures i in all {
    }
  }

  lemma EncodableField(d: Tables, x: nat, n: nat, more: Items)
    requires Encodable([Extra(x, n)] + more, d)
    ensures x < Pow2(n) && Encodable(more, d)
  {
    var all := [Extra(x, n)] + more;
    assert all[0] in all;
    forall i | i in more ensures i in all {
    }
  }

  /** A symbol at the head of the items is read first. */
  lemma SymbolIsReadFirst(d: Tables, t: nat, s: nat, more: Items, rest: Bits)
    requires Decodable(d) && t < |d| && Encodable([Symbol(t, s)] + more, d)
    ensures Encodable(more, d)
    ensures ReadSymbol(d[t], ItemBits([Symbol(t, s)] + more, d) + rest) == Some((s, ItemBits(more, d) + rest))
  {
    hide *;
    EncodableSymbol(d, t, s, more);
    SpellSymbol(d, t, s);
    var tail := ItemBits(more, d) + rest;
    ItemBitsCons(Symbol(t, s), more, d);
    SymbolIsRead(d[t], s, tail);
    assert Word(d[t], s) + ItemBits(more, d) + rest == Word(d[t], s) + tail;
  }

  /** And so are the additional bits behind it. */
  lemma FieldIsReadFirst(d: Tables, x: nat, n: nat, more: Items, rest: Bits)
    requires Encodable([Extra(x, n)] + more, d)
    ensures Encodable(more, d)
    ensures ReadBits(n, ItemBits([Extra(x, n)] + more, d) + rest) == Some((x, ItemBits(more, d) + rest))
  {
    hide ItemBits, ReadBits, ToBits, Pow2, Encodable;
    EncodableField(d, x, n, more);
    var tail := ItemBits(more, d) + rest;
    ItemBitsCons(Extra(x, n), more, d);
    BitsAreRead(x, n, tail);
    assert ToBits(x, n) + ItemBits(more, d) + rest == ToBits(x, n) + tail;
  }

  /** A code word and its additional bits are read one after the other. */
  lemma PairIsReadFirst(d: Tables, t: nat, s: nat, x: nat, n: nat, more: Items, rest: Bits)
    requires Decodable(d) && t < |d| && Encodable([Symbol(t, s), Extra(x, n)] + more, d)
    ensures Encodable(more, d)
    ensures var behind := ItemBits([Extra(x, n)] + more, d) + rest;
      && ReadSymbol(d[t], ItemBits([Symbol(t, s), Extra(x, n)] + more, d) + rest) == Some((s, behind))
      && ReadBits(n, behind) == Some((x, ItemBits(more, d) + rest))
  {
    hide *;
    assert [Symbol(t, s), Extra(x, n)] + more == [Symbol(t, s)] + ([Extra(x, n)] + more);
    SymbolIsReadFirst(d, t, s, [Extra(x, n)] + more, rest);
    FieldIsReadFirst(d, x, n, more, rest);
  }

  /** The ones that fill up the last byte never complete a code word. */
  lemma PaddingReadsAsNothing(d: Derived, k: nat)
    requires PrefixCode(d)
    ensures ReadSymbol(d, Ones(k)) == None
  {
    forall s: nat ensures !Begins(d, s, Ones(k)) {
      if HasCode(d, s) && Word(d, s) != Ones(d.ehufsi[s]) {
        var i :| 0 <= i < |Word(d, s)| && !Word(d, s)[i];
      }
    }
  }
}
