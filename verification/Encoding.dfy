/** A record encoding of the kind the ledgers assume exists: one-to-one, and without line
  breaks inside a record. Records are tables of numbers here; the ledgers' rows are turned
  into such tables field by field.
  */
module Encoding {
  import opened Options
  import opened Framing

  function NatBytes(n: nat): seq<byte> {
    if n == 0 then [0] else [1] + NatBytes(n - 1)
  }

  function ListBytes(list: seq<nat>): seq<byte> {
    if list == [] then [0] else [1] + (NatBytes(list[0]) + ListBytes(list[1..]))
  }

  function TableBytes(table: seq<seq<nat>>): seq<byte> {
    if table == [] then [0] else [1] + (ListBytes(table[0]) + TableBytes(table[1..]))
  }

  // ------------------------------------------------------- no code starts another

  lemma {:induction false} NatDecodes(m: nat, n: nat, x: seq<byte>, y: seq<byte>)
    requires NatBytes(m) + x == NatBytes(n) + y
    ensures m == n && x == y
  {
    var s, t := NatBytes(m) + x, NatBytes(n) + y;
    assert s[0] == NatBytes(m)[0] && t[0] == NatBytes(n)[0];
    if m == 0 {
      assert s[1..] == x && t[1..] == y;
    } else {
      assert s[1..] == NatBytes(m - 1) + x && t[1..] == NatBytes(n - 1) + y;
      NatDecodes(m - 1, n - 1, x, y);
    }
  }

  /** What follows the mark of a non-empty list. */
  lemma AfterMark(code: seq<byte>, first: seq<byte>, rest: seq<byte>, x: seq<byte>)
    requires code == [1] + (first + rest)
    ensures (code + x)[1..] == first + (rest + x)
  {
  }

  lemma {:induction false} ListDecodes(a: seq<nat>, b: seq<nat>, x: seq<byte>, y: seq<byte>)
    requires ListBytes(a) + x == ListBytes(b) + y
    ensures a == b && x == y
    decreases |a|
  {
    var s, t := ListBytes(a) + x, ListBytes(b) + y;
    assert s[0] == ListBytes(a)[0] && t[0] == ListBytes(b)[0];
    if a == [] {
      assert s[1..] == x && t[1..] == y;
    } else {
      AfterMark(ListBytes(a), NatBytes(a[0]), ListBytes(a[1..]), x);
      AfterMark(ListBytes(b), NatBytes(b[0]), ListBytes(b[1..]), y);
      hide *;
      NatDecodes(a[0], b[0], ListBytes(a[1..]) + x, ListBytes(b[1..]) + y);
      ListDecodes(a[1..], b[1..], x, y);
      assert a == [a[0]] + a[1..] && b == [b[0]] + b[1..];
    }
  }

  lemma {:induction false} TableDecodes(a: seq<seq<nat>>, b: seq<seq<nat>>, x: seq<byte>, y: seq<byte>)
    requires TableBytes(a) + x == TableBytes(b) + y
    ensures a == b && x == y
    decreases |a|
  {
    var s, t := TableBytes(a) + x, TableBytes(b) + y;
    assert s[0] == TableBytes(a)[0] && t[0] == TableBytes(b)[0];
    if a == [] {
      assert s[1..] == x && t[1..] == y;
    } else {
      AfterMark(TableBytes(a), ListBytes(a[0]), TableBytes(a[1..]), x);
      AfterMark(TableBytes(b), ListBytes(b[0]), TableBytes(b[1..]), y);
      hide *;
      ListDecodes(a[0], b[0], TableBytes(a[1..]) + x, TableBytes(b[1..]) + y);
      TableDecodes(a[1..], b[1..], x, y);
      assert a == [a[0]] + a[1..] && b == [b[0]] + b[1..];
    }
  }

  /** Different tables have different bytes. */
  lemma TableBytesInjective(a: seq<seq<nat>>, b: seq<seq<nat>>)
    requires TableBytes(a) == TableBytes(b)
    ensures a == b
  {
    TableDecodes(a, b, [], []);
  }

  // ------------------------------------------------------------- no line breaks

  lemma {:induction false} NatUnbroken(n: nat)
    ensures NoBreaks(NatBytes(n))
  {
    if n > 0 { NatUnbroken(n - 1); }
  }

  lemma {:induction false} ListUnbroken(list: seq<nat>)
    ensures NoBreaks(ListBytes(list))
  {
    if list != [] {
      NatUnbroken(list[0]);
      ListUnbroken(list[1..]);
    }
  }

  lemma {:induction false} TableUnbroken(table: seq<seq<nat>>)
    ensures NoBreaks(TableBytes(table))
  {
    if table != [] {
      ListUnbroken(table[0]);
      TableUnbroken(table[1..]);
    }
  }

  // --------------------------------------------------------------------- fields

  function TextCodes(s: string): (codes: seq<nat>)
    ensures |codes| == |s| && forall k :: 0 <= k < |s| ==> codes[k] == s[k] as nat
  {
    seq(|s|, k requires 0 <= k < |s| => s[k] as nat)
  }

  lemma TextCodesInjective(s: string, t: string)
    requires TextCodes(s) == TextCodes(t)
    ensures s == t
  {
    forall k | 0 <= k < |s| ensures s[k] == t[k] {
      assert TextCodes(s)[k] == s[k] as nat && TextCodes(t)[k] == t[k] as nat;
    }
  }

  function OptionCodes(o: Option<string>): seq<nat> {
    match o
    case None => [0]
    case Some(s) => [1] + TextCodes(s)
  }

  lemma OptionCodesInjective(o: Option<string>, p: Option<string>)
    requires OptionCodes(o) == OptionCodes(p)
    ensures o == p
  {
    assert OptionCodes(o)[0] == OptionCodes(p)[0];
    if o.Some? {
      assert OptionCodes(o)[1..] == TextCodes(o.value) && OptionCodes(p)[1..] == TextCodes(p.value);
      TextCodesInjective(o.value, p.value);
    }
  }

  /** Integers as naturals: even for those from zero up, odd below. */
  function IntCode(i: int): nat {
    if i >= 0 then 2 * i else -2 * i - 1
  }
}
