/** Base58, implemented twice in the source: src/pyrxd/base58.py and src/pyrxd/utils.py. */
module Base58 {
  import opened Wrappers
  import opened Bytes
  import opened Radix

  const NUMERALS: string := "123456789"
  const UPPER: string := "ABCDEFGHJKLMNPQRSTUVWXYZ"
  const LOWER: string := "abcdefghijkmnopqrstuvwxyz"

  /** The 58 characters, in ASCII order; the letters O, I and l and the numeral 0 are missing. */
  const ALPHABET: string := NUMERALS + UPPER + LOWER

  /** str.index: the first position of a character. */
  function Index(s: string, c: char): (r: Option<nat>)
    ensures r.Some? ==> r.value < |s| && s[r.value] == c && forall i :: 0 <= i < r.value ==> s[i] != c
    ensures r.None? ==> forall i :: 0 <= i < |s| ==> s[i] != c
  {
    if s == [] then None
    else if s[0] == c then Some(0)
    else
      var rest := Index(s[1..], c);
      if rest.None? then None else Some(rest.value + 1)
  }

  function Digit(c: char): Option<nat> {
    Index(ALPHABET, c)
  }

  function Chars(ds: seq<nat>): (r: string)
    requires Below(ds, 58)
    ensures |r| == |ds| && forall i :: 0 <= i < |ds| ==> r[i] == ALPHABET[ds[i]]
  {
    if ds == [] then [] else [ALPHABET[ds[0]]] + Chars(ds[1..])
  }

  function Indices(s: string): (r: Result<seq<nat>>)
    ensures r.Ok? ==> |r.value| == |s| && Below(r.value, 58) && forall i :: 0 <= i < |s| ==>
            Digit(s[i]) == Some(r.value[i])
    ensures r.Err? ==> r == Err(ValueError) && exists i :: 0 <= i < |s| && Digit(s[i]).None?
  {
    if s == [] then Ok([])
    else
      var front, d := Indices(s[..|s| - 1]), Digit(s[|s| - 1]);
      if front.Err? || d.None? then Err(ValueError) else Ok(front.value + [d.value])
  }

  /** The base58 text of a byte string. */
  function Encode(payload: bytes): string {
    Chars(Convert(payload, 256, 58))
  }

  function Decode(s: string): Result<bytes> {
    var ds :- Indices(s);
    Ok(Convert(ds, 58, 256))
  }

  // ---------------------------------------------------------------------------
  // Round trips

  lemma {:induction false} NumeralsAscend(i: nat)
    requires i + 1 < |NUMERALS|
    ensures '0' < NUMERALS[i] < NUMERALS[i + 1] < 'A'
  {
  }

  lemma {:induction false} UpperAscends(i: nat)
    requires i + 1 < |UPPER|
    ensures '9' < UPPER[i] < UPPER[i + 1] < 'a'
  {
  }

  lemma {:induction false} LowerAscends(i: nat)
    requires i + 1 < |LOWER|
    ensures 'Z' < LOWER[i] < LOWER[i + 1]
  {
  }

  /** The alphabet is in ASCII order, so no character occurs twice. */
  lemma {:induction false} AlphabetAscends(i: nat)
    requires i + 1 < 58
    ensures |ALPHABET| == 58 && ALPHABET[i] < ALPHABET[i + 1]
  {
    assert |NUMERALS| == 9 && |UPPER| == 24 && |LOWER| == 25;
    NumeralsAscend(7);
    UpperAscends(0);
    UpperAscends(22);
    LowerAscends(0);
    hide NUMERALS, UPPER, LOWER;
    if i + 1 < 9 {
      NumeralsAscend(i);
    } else if 9 <= i && i + 1 < 33 {
      UpperAscends(i - 9);
    } else if 33 <= i {
      LowerAscends(i - 33);
    }
  }

  lemma {:induction false} AlphabetOrdered(i: nat, j: nat)
    requires i < j < 58
    ensures |ALPHABET| == 58 && ALPHABET[i] < ALPHABET[j]
  {
    hide ALPHABET;
    AlphabetAscends(j - 1);
    if i < j - 1 {
      AlphabetOrdered(i, j - 1);
    }
  }

  lemma {:induction false} DigitOfChar(d: nat)
    requires d < 58
    ensures |ALPHABET| == 58 && Digit(ALPHABET[d]) == Some(d)
  {
    hide ALPHABET, Index;
    AlphabetLength();
    var r := Digit(ALPHABET[d]);
    if r.Some? && r.value < d {
      AlphabetOrdered(r.value, d);
    }
  }

  lemma {:induction false} IndicesOfChars(ds: seq<nat>)
    requires Below(ds, 58)
    ensures Indices(Chars(ds)) == Ok(ds)
  {
    hide ALPHABET, Digit;
    var s := Chars(ds);
    forall i | 0 <= i < |s|
      ensures Digit(s[i]) == Some(ds[i])
    {
      DigitOfChar(ds[i]);
    }
    hide Indices;
    assert Indices(s).Ok?;
    assert Indices(s).value == ds;
  }

  lemma {:induction false} CharsOfIndices(s: string)
    requires Indices(s).Ok?
    ensures Chars(Indices(s).value) == s
  {
    hide Indices, Chars;
  }

  /** Decoding what was encoded gives the bytes back, for every byte string. */
  lemma {:induction false} DecodeOfEncode(payload: bytes)
    ensures Decode(Encode(payload)) == Ok(payload)
  {
    hide Indices, Chars, Convert;
    IndicesOfChars(Convert(payload, 256, 58));
    ConvertBack(payload, 256, 58);
  }

  /** Encoding what was decoded gives the text back, for every text over the alphabet. */
  lemma {:induction false} EncodeOfDecode(s: string)
    requires Decode(s).Ok?
    ensures Encode(Decode(s).value) == s
  {
    hide Indices, Chars, Convert;
    CharsOfIndices(s);
    ConvertBack(Indices(s).value, 58, 256);
  }

  /** Exactly the texts over the alphabet can be decoded. */
  lemma {:induction false} DecodableIff(s: string)
    ensures Decode(s).Ok? <==> forall i :: 0 <= i < |s| ==> s[i] in ALPHABET
  {
    hide Indices, Convert;
    forall i | 0 <= i < |s|
      ensures Digit(s[i]).Some? <==> s[i] in ALPHABET
    {
      hide ALPHABET;
      assert Index(ALPHABET, s[i]).None? ==> s[i] !in ALPHABET;
    }
    hide Digit, ALPHABET;
  }

  // ---------------------------------------------------------------------------
  // The loops of base58.py

  lemma {:induction false} DigitsStep(n: nat, b: nat)
    requires b >= 2 && n > 0
    ensures 0 <= n / b < n && 0 <= n % b < b && Digits(n, b) == Digits(n / b, b) + [n % b]
  {
    DivShrinks(n, b);
  }

  lemma {:induction false} CharsOfAppend(a: seq<nat>, b: seq<nat>)
    requires Below(a, 58) && Below(b, 58)
    ensures Below(a + b, 58) && Chars(a + b) == Chars(a) + Chars(b)
  {
    hide Chars, ALPHABET;
  }

  lemma {:induction false} AlphabetLength()
    ensures |ALPHABET| == 58 && ALPHABET[0] == '1'
  {
  }

  /** One more digit of a number moves to those done. */
  lemma {:induction false} DigitsMove(n: nat, done: seq<nat>)
    requires n > 0
    ensures n % 58 < 58 && n / 58 < n
    ensures Digits(n, 58) + done == Digits(n / 58, 58) + ([n % 58] + done)
  {
    DigitsStep(n, 58);
    hide Digits;
    var front, d := Digits(n / 58, 58), [n % 58];
    assert (front + d) + done == front + (d + done);
  }

  lemma {:induction false} CharsOfOne(d: nat)
    requires d < 58
    ensures Below([d], 58) && Chars([d]) == [ALPHABET[d]]
  {
    hide ALPHABET;
    assert [d][1..] == [];
  }

  /** while num > 0: num, remaining = divmod(num, 58); result = ALPHABET[remaining] + result */
  method DigitLoop(value: nat) returns (result: string)
    ensures result == Chars(Digits(value, 58))
  {
    hide Digits, ALPHABET, Chars;
    AlphabetLength();
    NoDigits(58);
    var num := value;
    ghost var done: seq<nat> := [];
    result := [];
    assert Digits(value, 58) + [] == Digits(value, 58);
    while num > 0
      invariant Below(done, 58) && result == Chars(done)
      invariant Digits(value, 58) == Digits(num, 58) + done
    {
      DigitsMove(num, done);
      var remaining := num % 58;
      CharsOfAppend([remaining], done);
      CharsOfOne(remaining);
      done := [remaining] + done;
      result := [ALPHABET[remaining]] + result;
      num := num / 58;
    }
    assert [] + done == done;
  }

  lemma {:induction false} NoDigits(b: nat)
    requires b >= 2
    ensures Digits(0, b) == []
  {
  }

  /** The loops that count leading zero bytes, or leading "1" characters. */
  method CountLeading(s: seq<nat>) returns (pad: nat)
    ensures pad == LeadingZeros(s)
  {
    pad := 0;
    while pad < |s| && s[pad] == 0
      invariant pad <= |s| && forall i :: 0 <= i < pad ==> s[i] == 0
    {
      pad := pad + 1;
    }
    LeadingZerosUnique(s, pad);
  }

  lemma {:induction false} LeadingZerosUnique(s: seq<nat>, k: nat)
    requires k <= |s| && (forall i :: 0 <= i < k ==> s[i] == 0) && (k < |s| ==> s[k] != 0)
    ensures LeadingZeros(s) == k
  {
    hide LeadingZeros;
    var z := LeadingZeros(s);
    assert z < |s| ==> s[z] != 0;
  }

  lemma {:induction false} CharsOfZeros(k: nat)
    ensures Below(Zeros(k), 58) && Chars(Zeros(k)) == seq(k, i => '1')
  {
    assert ALPHABET[0] == '1';
    hide ALPHABET, Chars;
  }

  /** b58_encode */
  method B58Encode(payload: bytes) returns (r: string)
    ensures r == Encode(payload)
  {
    hide Chars, Digits, Value, LeadingZeros, ALPHABET;
    var pad := CountLeading(payload);
    CharsOfZeros(pad);
    var prefix: string := seq(pad, i => '1');
    var num := Value(payload, 256);
    var result := DigitLoop(num);
    CharsOfAppend(Zeros(pad), Digits(num, 58));
    r := prefix + result;
  }

  /** to_base58: accumulates the number byte by byte and puts the ones in front at the end. */
  method ToBase58(bin: bytes) returns (r: string)
    ensures r == Encode(bin)
  {
    hide Chars, Digits, LeadingZeros, ALPHABET;
    var acc: nat := 0;
    for i := 0 to |bin|
      invariant acc == Value(bin[..i], 256)
    {
      assert bin[..i + 1][..i] == bin[..i];
      acc := acc * 256 + bin[i];
    }
    assert bin[..|bin|] == bin;
    r := DigitLoop(acc);
    ghost var digits := r;
    var k := 0;
    while k < |bin| && bin[k] == 0
      invariant k <= |bin| && forall i :: 0 <= i < k ==> bin[i] == 0
      invariant r == seq(k, i => '1') + digits
    {
      assert ['1'] + seq(k, i => '1') == seq(k + 1, i => '1');
      r := ['1'] + r;
      k := k + 1;
    }
    LeadingZerosUnique(bin, k);
    CharsOfZeros(k);
    CharsOfAppend(Zeros(k), Digits(acc, 58));
  }

  // ---------------------------------------------------------------------------
  // Decoding loops

  lemma {:induction false} OneIsZero(c: char)
    ensures c == '1' <==> Digit(c) == Some(0)
  {
    assert |ALPHABET| == 58 && ALPHABET[0] == '1';
    DigitOfChar(0);
    hide ALPHABET, Index;
  }

  /** for char in encoded: num = num * 58 + ALPHABET.index(char) */
  method ValueLoop(s: string) returns (num: Result<nat>)
    ensures num == if Indices(s).Err? then Err(ValueError) else Ok(Value(Indices(s).value, 58))
  {
    hide Digit;
    var acc: nat := 0;
    for i := 0 to |s|
      invariant Indices(s[..i]).Ok? && acc == Value(Indices(s[..i]).value, 58)
    {
      assert s[..i + 1][..i] == s[..i];
      var d := Digit(s[i]);
      if d.None? {
        IndicesFail(s, i);
        return Err(ValueError);
      }
      ValueAppend(Indices(s[..i]).value, d.value, 58);
      acc := acc * 58 + d.value;
    }
    assert s[..|s|] == s;
    num := Ok(acc);
  }

  lemma {:induction false} IndicesFail(s: string, i: nat)
    requires i < |s| && Digit(s[i]).None?
    ensures Indices(s) == Err(ValueError)
  {
    hide Digit, Indices;
  }

  /** The count of leading "1" characters is the count of leading zero digits. */
  method CountOnes(s: string) returns (pad: nat)
    ensures pad <= |s|
    ensures Indices(s).Ok? ==> pad == LeadingZeros(Indices(s).value)
  {
    hide Indices, Digit;
    pad := 0;
    while pad < |s| && s[pad] == '1'
      invariant pad <= |s| && forall i :: 0 <= i < pad ==> s[i] == '1'
    {
      pad := pad + 1;
    }
    if Indices(s).Ok? {
      forall i | 0 <= i < |s|
        ensures s[i] == '1' <==> Indices(s).value[i] == 0
      {
        OneIsZero(s[i]);
      }
      LeadingZerosUnique(Indices(s).value, pad);
    }
  }

  /** b58_decode */
  method B58Decode(encoded: string) returns (r: Result<bytes>)
    ensures r == Decode(encoded)
  {
    hide Indices, Value, LeadingZeros, Digits;
    var pad := CountOnes(encoded);
    var num := ValueLoop(encoded);
    if num.Err? {
      return Err(ValueError);
    }
    r := Ok(Zeros(pad) + Digits(num.value, 256));
  }

  /** while acc > 0: result.append(acc % 256); acc //= 256 */
  method ByteLoop(value: nat) returns (result: bytes)
    ensures Reverse(result) == Digits(value, 256)
  {
    hide Digits, Reverse;
    var acc := value;
    result := [];
    ghost var done: bytes := [];
    NoDigits(256);
    ReverseConcat<byte>([], []);
    assert Digits(acc, 256) + [] == Digits(acc, 256);
    while acc > 0
      invariant Digits(value, 256) == Digits(acc, 256) + done && done == Reverse(result)
    {
      DigitsStep(acc, 256);
      var b: byte := acc % 256;
      ReverseConcat(result, [b]);
      ReverseOne(b);
      done := [b] + done;
      result := result + [b];
      acc := acc / 256;
    }
  }

  lemma {:induction false} ReverseOne(b: byte)
    ensures Reverse([b]) == [b]
  {
  }

  /** from_base58: refuses the empty text, and collects the bytes least significant first. */
  method FromBase58(s: string) returns (r: Result<bytes>)
    ensures r == if s == [] then Err(ValueError) else Decode(s)
  {
    hide Indices, Value, LeadingZeros, Digits, Reverse;
    if s == [] {
      return Err(ValueError);
    }
    if '0' in s || 'I' in s || 'O' in s || 'l' in s {
      ForbiddenFails(s);
      return Err(ValueError);
    }
    var lz := CountOnes(s);
    var num := ValueLoop(s);
    if num.Err? {
      return Err(ValueError);
    }
    var result := ByteLoop(num.value);
    r := Ok(Zeros(lz) + Reverse(result));
  }

  lemma {:induction false} NumeralsRange(i: nat)
    requires i < |NUMERALS|
    ensures '0' < NUMERALS[i] < 'A'
  {
  }

  lemma {:induction false} UpperRange(i: nat)
    requires i < |UPPER|
    ensures '9' < UPPER[i] < 'a' && UPPER[i] != 'I' && UPPER[i] != 'O'
  {
  }

  lemma {:induction false} LowerRange(i: nat)
    requires i < |LOWER|
    ensures 'Z' < LOWER[i] && LOWER[i] != 'l'
  {
  }

  lemma {:induction false} MissingFromAlphabet()
    ensures '0' !in ALPHABET && 'I' !in ALPHABET && 'O' !in ALPHABET && 'l' !in ALPHABET
  {
    hide NUMERALS, UPPER, LOWER;
    forall i | 0 <= i < |ALPHABET|
      ensures ALPHABET[i] != '0' && ALPHABET[i] != 'I' && ALPHABET[i] != 'O' && ALPHABET[i] != 'l'
    {
      if i < |NUMERALS| {
        NumeralsRange(i);
      } else if i < |NUMERALS| + |UPPER| {
        UpperRange(i - |NUMERALS|);
      } else {
        LowerRange(i - |NUMERALS| - |UPPER|);
      }
    }
  }

  lemma {:induction false} ForbiddenFails(s: string)
    requires '0' in s || 'I' in s || 'O' in s || 'l' in s
    ensures Decode(s) == Err(ValueError)
  {
    MissingFromAlphabet();
    DecodableIff(s);
    hide ALPHABET, Indices, Convert;
  }

  /** The alphabet: the ASCII digits and letters without 0, O, I and l. */
  predicate IsBase58(c: char) {
    '1' <= c <= '9' || ('A' <= c <= 'Z' && c != 'I' && c != 'O') || ('a' <= c <= 'z' && c != 'l')
  }

  /** Exactly these characters have a digit; with AlphabetAscends that fixes the alphabet. */
  lemma {:induction false} AlphabetHolds(c: char)
    ensures Digit(c).Some? <==> IsBase58(c)
  {
    hide ALPHABET, NUMERALS, UPPER, LOWER;
    InAlphabet(c);
    InNumerals(c);
    InUpper(c);
    InLower(c);
  }

  lemma {:induction false} InAlphabet(c: char)
    ensures Digit(c).Some? <==> c in NUMERALS || c in UPPER || c in LOWER
  {
    hide NUMERALS, UPPER, LOWER;
    assert c in ALPHABET <==> c in NUMERALS || c in UPPER || c in LOWER;
    if c in ALPHABET {
      var i :| 0 <= i < |ALPHABET| && ALPHABET[i] == c;
    }
  }

  lemma {:induction false} InNumerals(c: char)
    ensures c in NUMERALS <==> '1' <= c <= '9'
  {
    if '1' <= c <= '9' {
      assert NUMERALS[c as int - '1' as int] == c;
    }
  }

  lemma {:induction false} InUpper(c: char)
    ensures c in UPPER <==> 'A' <= c <= 'Z' && c != 'I' && c != 'O'
  {
    if 'A' <= c <= 'Z' && c != 'I' && c != 'O' {
      var i := c as int - 'A' as int;
      assert UPPER[if c < 'I' then i else if c < 'O' then i - 1 else i - 2] == c;
    }
  }

  lemma {:induction false} InLower(c: char)
    ensures c in LOWER <==> 'a' <= c <= 'z' && c != 'l'
  {
    if 'a' <= c <= 'z' && c != 'l' {
      var i := c as int - 'a' as int;
      assert LOWER[if c < 'l' then i else i - 1] == c;
    }
  }

  lemma {:induction false} DecodeRaises(s: string)
    ensures Decode(s).Err? ==> Decode(s) == Err(ValueError)
  {
    hide Convert;
  }
}
