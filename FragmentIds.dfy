/**
 * Fragment IDs: fragment i of key k is stored under "<k>-<i>", with i
 * written in decimal. Because a decimal numeral contains no '-', the last
 * '-' of an ID marks where the key ends, so distinct (key, index) pairs get
 * distinct IDs.
 */
module FragmentIds {

  predicate IsDigit(c: char) {
    '0' <= c <= '9'
  }

  predicate AllDigits(s: string) {
    forall p :: 0 <= p < |s| ==> IsDigit(s[p])
  }

  function DigitChar(d: nat): (c: char)
    requires d < 10
    ensures IsDigit(c)
  {
    (48 + d) as char
  }

  function DigitValue(c: char): (d: nat)
    requires IsDigit(c)
    ensures d < 10 && DigitChar(d) == c
  {
    c as int - 48
  }

  /** The decimal numeral of n, as a template literal prints an array index. */
  function Decimal(n: nat): (s: string)
    ensures |s| > 0 && AllDigits(s)
    decreases n
  {
    if n < 10 then [DigitChar(n)] else Decimal(n / 10) + [DigitChar(n % 10)]
  }

  /** Reads a decimal numeral back; the inverse of Decimal. */
  function ParseDecimal(s: string): nat
    requires |s| > 0 && AllDigits(s)
    decreases |s|
  {
    if |s| == 1 then DigitValue(s[0])
    else 10 * ParseDecimal(s[..|s| - 1]) + DigitValue(s[|s| - 1])
  }

  lemma {:induction false} ParseDecimalInvertsDecimal(n: nat)
    ensures ParseDecimal(Decimal(n)) == n
    decreases n
  {
    if n >= 10 {
      var s := Decimal(n);
      assert s[..|s| - 1] == Decimal(n / 10);
      ParseDecimalInvertsDecimal(n / 10);
    }
  }

  lemma DecimalInjective(i: nat, j: nat)
    requires Decimal(i) == Decimal(j)
    ensures i == j
  {
    ParseDecimalInvertsDecimal(i);
    ParseDecimalInvertsDecimal(j);
  }

  /** id is key, then '-', then a decimal numeral. */
  predicate KeyDashNumeral(id: string, key: string) {
    |id| > |key| + 1 && id[..|key|] == key && id[|key|] == '-' && AllDigits(id[|key| + 1..])
  }

  /** The ID under which fragment i of key is stored. */
  function FragId(key: string, i: nat): (id: string)
    ensures KeyDashNumeral(id, key)
  {
    var id := key + "-" + Decimal(i);
    assert id[|key| + 1..] == Decimal(i);
    id
  }

  /** The IDs of the first n fragments of key, in split order. */
  function FragIds(key: string, n: nat): (ids: seq<string>)
    ensures |ids| == n && forall i :: 0 <= i < n ==> ids[i] == FragId(key, i)
  {
    seq(n, i requires 0 <= i => FragId(key, i))
  }

  /** In FragId(key, i), the last '-' sits right after the key. */
  lemma LastDashEndsKey(key: string, i: nat)
    ensures |FragId(key, i)| > |key| && FragId(key, i)[|key|] == '-'
    ensures forall p :: |key| < p < |FragId(key, i)| ==> FragId(key, i)[p] != '-'
  {
    var id, d := FragId(key, i), Decimal(i);
    forall p | |key| < p < |id|
      ensures id[p] != '-'
    {
      assert id[p] == d[p - |key| - 1];
    }
  }

  /** Distinct (key, index) pairs never share a fragment ID. */
  lemma FragIdInjective(s: string, i: nat, t: string, j: nat)
    requires FragId(s, i) == FragId(t, j)
    ensures s == t && i == j
  {
    var id := FragId(s, i);
    LastDashEndsKey(s, i);
    LastDashEndsKey(t, j);
    assert |s| == |t|;
    assert s == id[..|s|] && t == id[..|t|];
    assert Decimal(i) == id[|s| + 1..] && Decimal(j) == id[|t| + 1..];
    DecimalInjective(i, j);
  }

  /** An ID names at most one position of one key's ID sequence. */
  lemma FragIdsOwned(k1: string, n1: nat, i: nat, k2: string, n2: nat, j: nat)
    requires i < n1 && j < n2 && FragIds(k1, n1)[i] == FragIds(k2, n2)[j]
    ensures k1 == k2 && i == j
  {
    FragIdInjective(k1, i, k2, j);
  }

  /** The IDs of one key are pairwise distinct. */
  lemma FragIdsDistinct(key: string, n: nat)
    ensures forall i, j :: 0 <= i < j < n ==> FragIds(key, n)[i] != FragIds(key, n)[j]
  {
    forall i, j | 0 <= i < j < n
      ensures FragIds(key, n)[i] != FragIds(key, n)[j]
    {
      if FragIds(key, n)[i] == FragIds(key, n)[j] {
        FragIdInjective(key, i, key, j);
      }
    }
  }
}
