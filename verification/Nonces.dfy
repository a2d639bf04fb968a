/**
 The 24-byte block nonce of internal/crypt/cipher.go: a little-endian odometer. A Go array is a value
 (assigning it copies it), so a nonce is a sequence here and the methods return the updated one.
 */
module Nonces {
  import opened Streams

  const NONCE_SIZE := 24

  type Nonce = s: seq<Byte> | |s| == NONCE_SIZE witness seq(NONCE_SIZE, _ => 0)

  /** Turns the odometer once; all ones wraps to all zeros. */
  function Turned(s: seq<Byte>): (r: seq<Byte>)
    ensures |r| == |s|
  {
    if s == [] then []
    else if s[0] == 255 then [0] + Turned(s[1..])
    else [s[0] + 1] + s[1..]
  }

  /** The odometer `k` turns later. */
  function Turns(s: seq<Byte>, k: nat): (r: seq<Byte>)
    ensures |r| == |s|
  {
    if k == 0 then s else Turned(Turns(s, k - 1))
  }

  /** The nonce `k` increments later. */
  function Advance(n: Nonce, k: nat): Nonce {
    Turns(n, k)
  }

  lemma {:induction false} TurnsTwice(s: seq<Byte>, j: nat, k: nat)
    ensures Turns(Turns(s, j), k) == Turns(s, j + k)
  {
    if k > 0 {
      TurnsTwice(s, j, k - 1);
    }
  }

  lemma AdvanceTwice(n: Nonce, j: nat, k: nat)
    ensures Advance(Advance(n, j), k) == Advance(n, j + k)
  {
    TurnsTwice(n, j, k);
  }

  // The number a digit sequence stands for.

  function Pow256(k: nat): (p: nat)
    ensures p > 0
  {
    if k == 0 then 1 else 256 * Pow256(k - 1)
  }

  function Value(s: seq<Byte>): nat {
    if s == [] then 0 else s[0] + 256 * Value(s[1..])
  }

  lemma {:induction false} ValueBound(s: seq<Byte>)
    ensures Value(s) < Pow256(|s|)
  {
    if s != [] {
      ValueBound(s[1..]);
    }
  }

  lemma {:induction false} ValueInjective(a: seq<Byte>, b: seq<Byte>)
    requires |a| == |b| && Value(a) == Value(b)
    ensures a == b
  {
    if a != [] {
      assert a[0] == Value(a) % 256 == b[0];
      ValueInjective(a[1..], b[1..]);
      assert a == [a[0]] + a[1..] && b == [b[0]] + b[1..];
    }
  }

  lemma {:induction false} ValueConcat(a: seq<Byte>, b: seq<Byte>)
    ensures Value(a + b) == Value(a) + Pow256(|a|) * Value(b)
  {
    if a == [] {
      assert a + b == b;
    } else {
      ValueConcat(a[1..], b);
      assert (a + b)[1..] == a[1..] + b;
      Associate(256, Pow256(|a| - 1), Value(b));
    }
  }

  lemma Associate(x: nat, y: nat, z: nat)
    ensures (x * y) * z == x * (y * z)
  {
  }

  lemma {:induction false} ValueTurned(s: seq<Byte>)
    ensures Value(Turned(s)) == if Value(s) + 1 == Pow256(|s|) then 0 else Value(s) + 1
  {
    if s != [] {
      ValueBound(s[1..]);
      if s[0] == 255 {
        ValueTurned(s[1..]);
        assert Turned(s)[1..] == Turned(s[1..]);
      } else {
        assert Turned(s)[1..] == s[1..];
      }
    }
  }

  /** Turning `k` times adds `k` modulo the number of positions: 2^192 for a nonce. */
  lemma {:induction false} TurnsAdd(s: seq<Byte>, k: nat)
    requires k < Pow256(|s|)
    ensures var sum := Value(s) + k;
            Value(Turns(s, k)) == if sum < Pow256(|s|) then sum else sum - Pow256(|s|)
  {
    ValueBound(s);
    if k > 0 {
      TurnsAdd(s, k - 1);
      var before := Turns(s, k - 1);
      ValueTurned(before);
      AddOne(Value(s), k, Pow256(|s|), Value(before), Value(Turned(before)));
    }
  }

  /** Advancing a nonce by `k` adds `k` to the number it stands for, modulo 2^192. */
  lemma AdvanceAdds(n: Nonce, k: nat)
    requires k < Pow256(NONCE_SIZE)
    ensures Value(Advance(n, k)) == (Value(n) + k) % Pow256(NONCE_SIZE)
  {
    hide Value, Pow256, Turns;
    ValueBound(n);
    TurnsAdd(n, k);
    ModOnce(Value(n) + k, Pow256(NONCE_SIZE));
  }

  lemma ModOnce(sum: nat, m: nat)
    requires m > 0 && sum < m + m
    ensures sum % m == if sum < m then sum else sum - m
  {
    if sum < m {
      SmallMod(sum, m);
    } else {
      SmallMod(sum - m, m);
      assert (sum - m + m) % m == (sum - m) % m;
    }
  }

  lemma SmallMod(x: nat, m: nat)
    requires x < m
    ensures x % m == x
  {
  }

  lemma AddOne(v: nat, k: nat, m: nat, before: nat, after: nat)
    requires v < m && 0 < k < m
    requires before == if v + (k - 1) < m then v + (k - 1) else v + (k - 1) - m
    requires after == if before + 1 == m then 0 else before + 1
    ensures after == if v + k < m then v + k else v + k - m
  {
  }

  // The methods of the `nonce` type.

  /** Adds one at digit `i`, rippling while a digit overflows. */
  method Carry(n: Nonce, i: nat) returns (r: Nonce)
    requires i <= NONCE_SIZE
    ensures r == n[..i] + Turned(n[i..])
  {
    hide Turned;
    TurnedEmpty();
    r := n;
    var j := i;
    while j < NONCE_SIZE
      invariant i <= j <= NONCE_SIZE
      invariant r[j..] == n[j..]
      invariant r[..j] + Turned(n[j..]) == n[..i] + Turned(n[i..])
    {
      var digit: int := r[j];
      var newDigit := (digit + 1) % 256;
      CarryStep(n, r, j, digit);
      r := r[j := newDigit];
      if newDigit >= digit {
        return;
      }
      j := j + 1;
    }
    assert n[NONCE_SIZE..] == [] && r == r[..NONCE_SIZE];
  }

  lemma TurnedEmpty()
    ensures Turned([]) == []
  {
  }

  lemma CarryStep(s: seq<Byte>, r: seq<Byte>, j: nat, digit: int)
    requires |r| == |s| && j < |s| && r[j..] == s[j..] && digit == r[j]
    ensures var r' := r[j := (digit + 1) % 256];
            && r'[j + 1..] == s[j + 1..]
            && r[..j] + Turned(s[j..]) == if digit == 255 then r'[..j + 1] + Turned(s[j + 1..]) else r'
  {
    assert r[j] == r[j..][0] == s[j..][0] && s[j..][1..] == s[j + 1..] && r[j..][1..] == r[j + 1..];
    var r' := r[j := (digit + 1) % 256];
    assert r' == r[..j] + ([(digit + 1) % 256] + r[j + 1..]);
    assert r'[..j + 1] == r[..j] + [(digit + 1) % 256];
  }

  /** Adds one to the little-endian number, modulo 2^192. */
  method Increment(n: Nonce) returns (r: Nonce)
    ensures r == Advance(n, 1)
    ensures Value(r) == (Value(n) + 1) % Pow256(NONCE_SIZE)
    ensures n[0] < 255 ==> r == n[0 := n[0] + 1]
  {
    hide Value, Pow256;
    Pow256Eight();
    Pow256Grows(8, NONCE_SIZE);
    AdvanceAdds(n, 1);
    r := Carry(n, 0);
    assert n[..0] == [] && n[0..] == n;
    assert Turns(n, 1) == Turned(Turns(n, 0));
  }

  /**
   Adds a 64-bit number, modulo 2^192. That is the same as so many increments, carries past the eighth byte included.
   */
  method Add(n: Nonce, x: nat) returns (r: Nonce)
    requires x < 0x1_0000_0000_0000_0000
    ensures r == Advance(n, x)
    ensures Value(r) == (Value(n) + x) % Pow256(NONCE_SIZE)
  {
    hide Value, Pow256, Turned, Turns, Advance;
    Pow256Eight();
    Pow256Grows(8, NONCE_SIZE);
    AdvanceAdds(n, x);
    r := AddDigits(n, x);
  }

  method AddDigits(n: Nonce, x: nat) returns (r: Nonce)
    requires x < 0x1_0000_0000_0000_0000
    ensures r == Advance(n, x)
  {
    hide Value, Pow256, Turned, Turns;
    r := n;
    ghost var low := n[..8];
    var carry: nat, rest: nat := 0, x;
    Pow256Eight();
    ValueEmpty();
    assert r[..8] == low && r[..0] == [] && low[0..] == low;
    for i := 0 to 8
      invariant carry <= 1 && rest < Pow256(8 - i)
      invariant r[8..] == n[8..] && r[..8][i..] == low[i..]
      invariant Value(low) + x == Value(r[..8][..i]) + Pow256(i) * (carry + rest + Value(low[i..]))
    {
      var xDigit := rest % 256;
      var sum := carry + r[i] + xDigit;
      AddStep(low, r[..8], i, carry, rest);
      Pow256Step(8 - i);
      assert r[i := sum % 256][..8] == r[..8][i := sum % 256];
      rest := rest / 256;
      r := r[i := sum % 256];
      carry := sum / 256;
    }
    assert r[..8][..8] == r[..8] && low[8..] == [];
    CarryOver(low, n[8..], x, r[..8], carry);
    assert n == low + n[8..] && r == r[..8] + n[8..];
    if carry != 0 {
      r := Carry(r, 8);
    }
  }

  lemma Pow256Step(k: nat)
    requires k > 0
    ensures Pow256(k) == 256 * Pow256(k - 1)
  {
  }

  lemma ValueEmpty()
    ensures Value([]) == 0 && Pow256(0) == 1
  {
  }

  lemma Pow256Eight()
    ensures Pow256(8) == 0x1_0000_0000_0000_0000
  {
    assert Pow256(2) == 0x1_0000;
    assert Pow256(4) == 0x1_0000_0000;
    assert Pow256(6) == 0x1_0000_0000_0000;
  }

  lemma AddStep(s: seq<Byte>, r: seq<Byte>, i: nat, carry: nat, rest: nat)
    requires i < |r| == |s| && r[i..] == s[i..]
    ensures var sum := carry + r[i] + rest % 256;
            var r' := r[i := sum % 256];
            && r'[i + 1..] == s[i + 1..]
            && Value(r[..i]) + Pow256(i) * (carry + rest + Value(s[i..]))
               == Value(r'[..i + 1]) + Pow256(i + 1) * (sum / 256 + rest / 256 + Value(s[i + 1..]))
  {
    var sum := carry + r[i] + rest % 256;
    var digit := sum % 256;
    var tail := sum / 256 + rest / 256 + Value(s[i + 1..]);
    assert s[i..][1..] == s[i + 1..] && r[i..][1..] == r[i + 1..] && r[i..][0] == r[i];
    assert carry + rest + Value(s[i..]) == digit + 256 * tail;
    assert r[i := digit][..i + 1] == r[..i] + [digit];
    ValueConcat(r[..i], [digit]);
    assert Value([digit]) == digit;
    Distribute(Pow256(i), digit, tail);
  }

  lemma Distribute(p: nat, digit: nat, tail: nat)
    ensures p * (digit + 256 * tail) == p * digit + (256 * p) * tail
  {
  }

  /** Adding to the low digits and turning the high ones on a carry is turning the whole. */
  lemma CarryOver(low: seq<Byte>, high: seq<Byte>, x: nat, low': seq<Byte>, carry: nat)
    requires |low'| == |low| && carry <= 1 && x < Pow256(|low|)
    requires Value(low) + x == Value(low') + Pow256(|low|) * carry
    ensures low' + (if carry != 0 then Turned(high) else high) == Turns(low + high, x)
  {
    var high' := if carry != 0 then Turned(high) else high;
    var s, s' := low + high, low' + high';
    ValueConcat(low, high);
    ValueConcat(low', high');
    ValueTurned(high);
    ValueBound(high);
    Pow256Add(|low|, |high|);
    var wraps := if carry != 0 && Value(high) + 1 == Pow256(|high|) then 1 else 0;
    AddedValue(Pow256(|low|), Pow256(|high|), Value(high), Value(high'), carry, wraps);
    assert Value(s) + x == Value(s') + wraps * Pow256(|s|);
    ValueBound(s');
    Pow256Grows(|low|, |s|);
    TurnsAdd(s, x);
    ValueInjective(s', Turns(s, x));
  }

  lemma {:induction false} Pow256Grows(a: nat, b: nat)
    requires a <= b
    ensures Pow256(a) <= Pow256(b)
  {
    if a < b {
      Pow256Grows(a, b - 1);
    }
  }

  lemma AddedValue(p: nat, q: nat, high: nat, turned: nat, carry: nat, carried: nat)
    requires turned == high + carry - carried * q
    ensures p * carry + p * high == p * turned + carried * (p * q)
  {
    assert p * (high + carry) == p * high + p * carry;
    assert p * (carried * q) == carried * (p * q);
    assert p * turned + p * (carried * q) == p * (turned + carried * q);
  }

  lemma {:induction false} Pow256Add(a: nat, b: nat)
    ensures Pow256(a) * Pow256(b) == Pow256(a + b)
  {
    if a > 0 {
      Pow256Add(a - 1, b);
      Associate(256, Pow256(a - 1), Pow256(b));
    }
  }
}
