/** The hash texts a name can be replaced by. */
module AnonHash {
  import opened Words
  import opened Numerals

  const ANONY_HASH_FUNC_NUM := 4
  const BUFFER_SIZE := 128

  /** The four 16-bit hash functions. */
  type Hashes = (nat, string) -> u16

  /** The first `n + 1` hashes of a name in decimal with bars between them; the last text also carries the name. */
  function HashText(hash: Hashes, n: nat, raw: string): string
    requires n <= ANONY_HASH_FUNC_NUM
  {
    if n == 0 then Numeral(hash(0, raw), 10)
    else HashText(hash, n - 1, raw) + "|" + (if n < ANONY_HASH_FUNC_NUM then Numeral(hash(n, raw), 10) else raw)
  }

  /** The texts written out. */
  lemma TextsWritten(hash: Hashes, raw: string)
    ensures var a, b, c, d := Numeral(hash(0, raw), 10), Numeral(hash(1, raw), 10), Numeral(hash(2, raw), 10),
        Numeral(hash(3, raw), 10);
      && HashText(hash, 0, raw) == a
      && HashText(hash, 1, raw) == a + "|" + b
      && HashText(hash, 2, raw) == a + "|" + b + "|" + c
      && HashText(hash, 3, raw) == a + "|" + b + "|" + c + "|" + d
      && HashText(hash, 4, raw) == a + "|" + b + "|" + c + "|" + d + "|" + raw
  {
    hide Numeral;
    assert HashText(hash, 2, raw) == HashText(hash, 1, raw) + "|" + Numeral(hash(2, raw), 10);
    assert HashText(hash, 3, raw) == HashText(hash, 2, raw) + "|" + Numeral(hash(3, raw), 10);
  }

  /** The same in steps, into a buffer of 128 characters: `ok` is false where the buffer's assertion fails. */
  method GetHashStrN(hash: Hashes, n: nat, raw: string) returns (ok: bool, hashStr: string)
    requires n <= ANONY_HASH_FUNC_NUM
    ensures ok <==> |HashText(hash, n, raw)| < 128
    ensures ok ==> hashStr == HashText(hash, n, raw)
    ensures n < ANONY_HASH_FUNC_NUM ==> ok
  {
    hide Numeral;
    hashStr := "";
    for i := 0 to if n < ANONY_HASH_FUNC_NUM then n + 1 else ANONY_HASH_FUNC_NUM
      invariant hashStr == if i == 0 then "" else HashText(hash, i - 1, raw)
      invariant |hashStr| <= 6 * i
    {
      NumeralLength(hash(i, raw), 5);
      if i > 0 {
        hashStr := hashStr + "|";
      }
      hashStr := hashStr + Numeral(hash(i, raw), 10);
    }
    if n >= ANONY_HASH_FUNC_NUM {
      hashStr := hashStr + "|" + raw;
    }
    ok := |hashStr| < BUFFER_SIZE;
  }

  lemma {:induction false} NumeralLength(n: nat, k: nat)
    requires k >= 1 && n < Pow10(k)
    ensures |Numeral(n, 10)| <= k
    ensures k == 5 ==> n < 100000
    decreases k
  {
    assert Pow10(5) == 100000 by { assert Pow10(2) == 100; }
    if n >= 10 {
      NumeralLength(n / 10, k - 1);
    }
  }

  function Pow10(k: nat): nat { if k == 0 then 1 else 10 * Pow10(k - 1) }

  // ----- texts of different names -----

  predicate NoBar(t: string) { forall i :: 0 <= i < |t| ==> t[i] != '|' }

  lemma NumeralPlain(n: nat)
    ensures NoBar(Numeral(n, 10)) && Numeral(n, 10) != ""
    ensures forall i :: 0 <= i < |Numeral(n, 10)| ==> '0' <= Numeral(n, 10)[i] <= '9'
  {
    NumeralDigits(n, 10);
    var t := Numeral(n, 10);
    forall i | 0 <= i < |t| ensures '0' <= t[i] <= '9' { assert IsDigit(t[i], 10); }
  }

  lemma NumeralInjective(a: nat, b: nat)
    ensures Numeral(a, 10) == Numeral(b, 10) <==> a == b
  {
    NumeralDigits(a, 10);
    NumeralDigits(b, 10);
  }

  lemma AfterLastBar(a: string, x: string)
    requires NoBar(x)
    ensures forall i :: |a| < i < |a + "|" + x| ==> (a + "|" + x)[i] != '|'
  {
    forall i | |a| < i < |a + "|" + x| ensures (a + "|" + x)[i] != '|' {
      assert (a + "|" + x)[i] == x[i - |a| - 1];
    }
  }

  /** Texts split at the last bar. */
  lemma LastBar(a: string, x: string, b: string, y: string)
    requires NoBar(x) && NoBar(y) && a + "|" + x == b + "|" + y
    ensures a == b && x == y
  {
    var t, u := a + "|" + x, b + "|" + y;
    assert t[|a|] == '|' && u[|b|] == '|';
    AfterLastBar(a, x);
    AfterLastBar(b, y);
    assert t[..|a|] == a && u[..|b|] == b && t[|a| + 1..] == x && u[|b| + 1..] == y;
  }

  /** A text is two texts exactly when as many hashes were written and all of them agree. */
  lemma {:induction false} HashTextInjective(hash: Hashes, i: nat, s: string, j: nat, t: string)
    requires i < ANONY_HASH_FUNC_NUM && j < ANONY_HASH_FUNC_NUM
    ensures HashText(hash, i, s) == HashText(hash, j, t) <==>
      i == j && forall k: nat :: k <= i ==> hash(k, s) == hash(k, t)
  {
    hide Numeral;
    NumeralPlain(hash(i, s));
    NumeralPlain(hash(j, t));
    NumeralInjective(hash(i, s), hash(j, t));
    if i > 0 && j > 0 {
      HashTextInjective(hash, i - 1, s, j - 1, t);
      if HashText(hash, i, s) == HashText(hash, j, t) {
        LastBar(HashText(hash, i - 1, s), Numeral(hash(i, s), 10), HashText(hash, j - 1, t), Numeral(hash(j, t), 10));
      }
    } else if i > 0 {
      HasBar(HashText(hash, i - 1, s), Numeral(hash(i, s), 10));
    } else if j > 0 {
      HasBar(HashText(hash, j - 1, t), Numeral(hash(j, t), 10));
    }
  }

  lemma HasBar(a: string, b: string)
    ensures !NoBar(a + "|" + b)
  {
    assert (a + "|" + b)[|a|] == '|';
  }

  predicate DigitOrBar(c: char) { '0' <= c <= '9' || c == '|' }

  predicate DigitsAndBars(t: string) { forall i :: 0 <= i < |t| ==> DigitOrBar(t[i]) }

  lemma {:induction false} HashTextDigits(hash: Hashes, n: nat, s: string)
    requires n < ANONY_HASH_FUNC_NUM
    ensures HashText(hash, n, s) != "" && DigitsAndBars(HashText(hash, n, s))
  {
    hide Numeral;
    NumeralPlain(hash(n, s));
    if n > 0 {
      HashTextDigits(hash, n - 1, s);
    }
  }

  /** A C identifier, as far as it matters: it begins with a character that no hash text has. */
  predicate Identifier(s: string) { s != "" && !DigitOrBar(s[0]) }

  lemma LastTextLetters(hash: Hashes, s: string)
    requires Identifier(s)
    ensures !DigitsAndBars(s) && !DigitsAndBars(HashText(hash, ANONY_HASH_FUNC_NUM, s))
  {
    var t := HashText(hash, 3, s);
    assert HashText(hash, 4, s) == t + "|" + s;
    assert (t + "|" + s)[|t| + 1] == s[0];
    hide HashText;
  }
}
