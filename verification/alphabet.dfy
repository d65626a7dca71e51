/**
 * Crockford's Base32 alphabet, as the codec uses it: the table the encoder
 * indexes and `getValue`, the decoder's lookup of one character. The lookup
 * accepts lower case and reads the look-alikes o/O as 0, i/I/l/L as 1 and
 * u/U as V.
 */
module Alphabet {
  import opened Outcome

  /** `encTableCrock`: the 32 symbols in the order of their values. */
  const EncTable: string := "0123456789ABCDEFGHJKMNPQRSTVWXYZ"

  /** The first step of `getValue`: the look-alike letters are replaced by the symbol they stand for. */
  function Normalize(c: char): char
  {
    match c
    case 'o' | 'O' => '0'
    case 'i' | 'I' | 'l' | 'L' => '1'
    case 'u' | 'U' => 'V'
    case _ => c
  }

  /** The characters `getValue` accepts: digits and ASCII letters of either case. */
  predicate IsSymbolChar(c: char)
  {
    IsDigit(c) || IsLower(c) || IsUpper(c)
  }

  predicate IsDigit(c: char)
  {
    '0' <= c <= '9'
  }

  predicate IsLower(c: char)
  {
    'a' <= c <= 'z'
  }

  predicate IsUpper(c: char)
  {
    'A' <= c <= 'Z'
  }

  /** `Char.uppercaseChar()`, on the ASCII lower-case letters where the codec uses it. */
  function Upper(c: char): (r: char)
    requires IsLower(c)
    ensures IsUpper(r)
  {
    (c as int - 32) as char
  }

  /** The character `getValue` looks up after normalising and upper-casing c. */
  function Canonical(c: char): char
  {
    var a := Normalize(c);
    if IsLower(a) then Upper(a) else a
  }

  /**
   * `getValue`: the value of symbol c, or None where the source throws
   * "encoding error". Upper-case letters count from 10, skipping the letters
   * I, L, O and U that the alphabet leaves out.
   */
  function GetValue(c: char): (r: Option<int>)
    ensures r.Some? ==> 0 <= r.value < 32
    ensures r.Some? <==> IsSymbolChar(c)
  {
    var a := Normalize(c);
    if IsDigit(a) then Some(a as int - '0' as int)
    else
      var A := if IsLower(a) then Upper(a) else a;
      if IsUpper(A) then
        var dec := (if 'I' < A then 1 else 0) + (if 'L' < A then 1 else 0)
                 + (if 'O' < A then 1 else 0) + (if 'U' < A then 1 else 0);
        Some(A as int - 'A' as int + 10 - dec)
      else None
  }

  /**
   * The symbol of value v, described arithmetically: the ten digits, then the
   * runs A-H, J-K, M-N, P-T and V-Z of the upper-case letters.
   */
  function Symbol(v: int): (r: char)
    requires 0 <= v < 32
    ensures IsDigit(r) || IsUpper(r)
  {
    if v < 10 then ('0' as int + v) as char
    else if v < 18 then ('A' as int + v - 10) as char
    else if v < 20 then ('J' as int + v - 18) as char
    else if v < 22 then ('M' as int + v - 20) as char
    else if v < 27 then ('P' as int + v - 22) as char
    else ('V' as int + v - 27) as char
  }

  /** The table spells out exactly these runs. */
  lemma TableIsSymbols()
    ensures |EncTable| == 32
    ensures forall v :: 0 <= v < 32 ==> EncTable[v] == Symbol(v)
  {
  }

  lemma SymbolValue(v: int)
    requires 0 <= v < 32
    ensures GetValue(Symbol(v)) == Some(v)
    ensures Canonical(Symbol(v)) == Symbol(v)
  {
  }

  /** Every symbol of the table is read back as its own position. */
  lemma TableValues()
    ensures |EncTable| == 32
    ensures forall v :: 0 <= v < 32 ==> GetValue(EncTable[v]) == Some(v)
  {
    TableIsSymbols();
    forall v | 0 <= v < 32
      ensures GetValue(EncTable[v]) == Some(v)
    {
      SymbolValue(v);
    }
  }

  /** The symbol at position v of the table is read back as v. */
  lemma TableValue(v: int)
    requires 0 <= v < 32
    ensures GetValue(EncTable[v]) == Some(v)
  {
    TableIsSymbols();
    SymbolValue(v);
  }

  /** Lower and upper case read alike. */
  lemma CaseInsensitive(c: char)
    requires IsLower(c)
    ensures GetValue(c) == GetValue(Upper(c))
  {
  }

  /** Two canonical characters with the same value are the same character. */
  lemma CanonicalInjective(a: char, b: char)
    requires Canonical(a) == a && Canonical(b) == b
    requires GetValue(a).Some? && GetValue(a) == GetValue(b)
    ensures a == b
  {
  }

  /** Looking a character up is looking up its canonical form, which is its own canonical form. */
  lemma CanonicalValue(c: char)
    ensures GetValue(Canonical(c)) == GetValue(c)
    ensures Canonical(Canonical(c)) == Canonical(c)
  {
  }

  /** Looking a character up yields v exactly when the character is, up to case and look-alikes, the table's symbol v. */
  lemma GetValueIsTableIndex(c: char, v: int)
    ensures GetValue(c) == Some(v) <==> 0 <= v < 32 && Canonical(c) == EncTable[v]
  {
    CanonicalValue(c);
    if 0 <= v < 32 {
      TableIsSymbols();
      SymbolValue(v);
      if GetValue(c) == Some(v) {
        CanonicalInjective(Canonical(c), Symbol(v));
      }
    }
  }
}
