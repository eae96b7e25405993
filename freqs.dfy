/** Frequency counting: a 256-slot table of saturating 64-bit counters. */
module Freqs {
  import opened Types

  /** `u64::saturating_add`. */
  function SatAdd(a: U64, b: U64): U64
  {
    if a + b <= U64_MAX then a + b else U64_MAX
  }

  /** A count clamped to the largest 64-bit value. */
  function Saturate(n: nat): U64
  {
    if n <= U64_MAX then n else U64_MAX
  }

  /** How many times `t` occurs in `s`. */
  function Occurrences(s: seq<Byte>, t: int): nat
  {
    if s == [] then 0
    else Occurrences(s[..|s| - 1], t) + (if s[|s| - 1] == t then 1 else 0)
  }

  /** The table `construct_freqs_table` computes: slot t holds the saturated count of t. */
  function CountTable(s: seq<Byte>): seq<U64>
  {
    seq(256, t => Saturate(Occurrences(s, t)))
  }

  function Sum(s: seq<int>): int
  {
    if s == [] then 0 else Sum(s[..|s| - 1]) + s[|s| - 1]
  }

  lemma {:induction false} OccurrencesIsMultiplicity(s: seq<Byte>, t: Byte)
    ensures Occurrences(s, t) == multiset(s)[t]
  {
    if s != [] {
      OccurrencesIsMultiplicity(s[..|s| - 1], t);
      assert s == s[..|s| - 1] + [s[|s| - 1]];
    }
  }

  /** A slot is non-zero exactly for the bytes that occur in the input. */
  lemma CountTablePresence(s: seq<Byte>, t: Byte)
    ensures CountTable(s)[t] > 0 <==> t in s
  {
    OccurrencesIsMultiplicity(s, t);
  }

  lemma {:induction false} SumUpdate(s: seq<int>, k: nat, v: int)
    requires k < |s|
    ensures Sum(s[k := v]) == Sum(s) - s[k] + v
  {
    var n := |s| - 1;
    if k == n {
      assert s[k := v][..n] == s[..n];
    } else {
      SumUpdate(s[..n], k, v);
      assert s[k := v][..n] == s[..n][k := v];
    }
  }

  /** Without saturation the counts add up to the input length. */
  lemma {:induction false} CountsSumToLength(s: seq<Byte>)
    ensures Sum(seq(256, t => Occurrences(s, t))) == |s|
  {
    var counts := seq(256, t => Occurrences(s, t));
    if s == [] {
      assert counts == seq(256, t => 0);
      ZeroSum(256);
    } else {
      var init, b := s[..|s| - 1], s[|s| - 1];
      var before := seq(256, t => Occurrences(init, t));
      CountsSumToLength(init);
      assert counts == before[b := before[b] + 1];
      SumUpdate(before, b, before[b] + 1);
    }
  }

  lemma {:induction false} ZeroSum(n: nat)
    ensures Sum(seq(n, t => 0)) == 0
  {
    if n > 0 {
      ZeroSum(n - 1);
      assert seq(n, t => 0)[..n - 1] == seq(n - 1, t => 0);
    }
  }

  /** For inputs that fit the counters, the table's slots add up to the input length. */
  lemma CountTableSum(s: seq<Byte>)
    requires |s| <= U64_MAX
    ensures Sum(CountTable(s)) == |s|
  {
    var counts := seq(256, t => Occurrences(s, t));
    forall t | 0 <= t < 256 ensures Occurrences(s, t) <= |s| {
      OccurrencesIsMultiplicity(s, t);
    }
    assert CountTable(s) == counts;
    CountsSumToLength(s);
  }

  /** `FreqsTable`: the 256 counters, updated in place. */
  class FreqsTable {
    const freqs: array<U64>

    ghost predicate Valid()
      reads this
    {
      freqs.Length == 256
    }

    /** `FreqsTable::new`: every slot is zero. */
    constructor ()
      ensures Valid() && fresh(freqs)
      ensures forall t :: 0 <= t < 256 ==> freqs[t] == 0
    {
      freqs := new U64[256](_ => 0);
    }

    /** `FreqsTable::add`: saturating addition into slot `token`; no other slot changes. */
    method Add(token: Byte, freq: U64)
      requires Valid()
      modifies freqs
      ensures freqs[token] == SatAdd(old(freqs[token]), freq)
      ensures forall t :: 0 <= t < 256 && t != token ==> freqs[t] == old(freqs[t])
    {
      freqs[token] := SatAdd(freqs[token], freq);
    }
  }

  /** `construct_freqs_table`: one `add(b, 1)` per input byte. */
  method ConstructFreqsTable(data: seq<Byte>) returns (table: FreqsTable)
    ensures table.Valid() && fresh(table.freqs)
    ensures table.freqs[..] == CountTable(data)
  {
    table := new FreqsTable();
    for i := 0 to |data|
      invariant table.Valid()
      invariant forall t :: 0 <= t < 256 ==> table.freqs[t] == Saturate(Occurrences(data[..i], t))
    {
      assert data[..i + 1][..i] == data[..i];
      table.Add(data[i], 1);
    }
    assert data[..|data|] == data;
  }
}
