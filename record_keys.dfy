/**
 * The keys a bulk load writes: the i-th record goes under `f'record_{i}'`,
 * the index written in decimal without padding.
 */
module RecordKeys {

  import opened Wrappers
  import Lex

  const Prefix: string := "record_"

  predicate AllDigits(s: string)
  {
    forall i :: 0 <= i < |s| ==> '0' <= s[i] <= '9'
  }

  function DigitChar(d: nat): (c: char)
    requires d < 10
    ensures '0' <= c <= '9'
  {
    (48 + d) as char
  }

  /** Python's `str(n)` for a non-negative integer. */
  function Digits(n: nat): (s: string)
    ensures |s| > 0 && AllDigits(s)
    decreases n
  {
    if n < 10 then [DigitChar(n)] else Digits(n / 10) + [DigitChar(n % 10)]
  }

  /** Reads a string of decimal digits back as a number. */
  function ParseDigits(s: string): nat
    requires AllDigits(s)
    decreases |s|
  {
    if s == [] then 0 else 10 * ParseDigits(s[..|s| - 1]) + (s[|s| - 1] as int - 48)
  }

  lemma {:induction false} ParseDigitsOfDigits(n: nat)
    ensures ParseDigits(Digits(n)) == n
    decreases n
  {
    if n >= 10 {
      var s := Digits(n);
      assert s[..|s| - 1] == Digits(n / 10);
      ParseDigitsOfDigits(n / 10);
    }
  }

  /** The key the bulk load writes the i-th record under. */
  function RecordKey(i: nat): string
  {
    Prefix + Digits(i)
  }

  /** The index a record key was written for, if the key has the record shape. */
  function RecordIndex(k: string): Option<nat>
  {
    if |k| > |Prefix| && k[..|Prefix|] == Prefix && AllDigits(k[|Prefix|..])
    then Some(ParseDigits(k[|Prefix|..]))
    else None
  }

  lemma RecordIndexOfKey(i: nat)
    ensures RecordIndex(RecordKey(i)) == Some(i)
  {
    var k := RecordKey(i);
    assert k[..|Prefix|] == Prefix;
    assert k[|Prefix|..] == Digits(i);
    ParseDigitsOfDigits(i);
  }

  /** Different indices give different keys, so no write of a load overwrites another. */
  lemma RecordKeyInjective(i: nat, j: nat)
    ensures RecordKey(i) == RecordKey(j) <==> i == j
  {
    RecordIndexOfKey(i);
    RecordIndexOfKey(j);
  }

  /**
   * The ordering quirk: `record_9` sorts above every `record_j` with
   * j < 90 other than itself, `record_10` .. `record_89` included,
   * because only the first digit after the prefix is compared.
   */
  lemma NineOutranks(j: nat)
    requires j < 90 && j != 9
    ensures Lex.Less(RecordKey(j), RecordKey(9))
  {
    var d := Digits(j);
    assert Digits(9) == ['9'];
    if j >= 10 {
      assert Digits(j / 10) == [DigitChar(j / 10)];
      assert d[0] == DigitChar(j / 10);
    }
    assert d[0] < '9';
    Lex.LessCommonPrefix(Prefix, d, Digits(9));
  }
}
