/** The file-number generator of `POST /upload`: two upper-case letters, four digits and one
    upper-case letter, each picked by a call of `Math.random()`. The seven random draws are an
    input here; each is a real in [0, 1), as `Math.random()` returns. */
module FileNumber {

  const Letters: string := "ABCDEFGHIJKLMNOPQRSTUVWXYZ"
  const Digits: string := "0123456789"

  /** A value `Math.random()` can return. */
  predicate IsRandomDraw(r: real) {
    0.0 <= r < 1.0
  }

  /** Seven draws, one per character of the code. */
  predicate IsDrawSequence(draws: seq<real>) {
    |draws| == 7 && forall i | 0 <= i < 7 :: IsRandomDraw(draws[i])
  }

  /** `Math.floor(r * n)`. */
  function DrawIndex(r: real, n: nat): (k: int)
    requires IsRandomDraw(r) && n > 0
    ensures 0 <= k < n
  {
    assert 0.0 <= r * n as real < n as real;
    (r * n as real).Floor
  }

  /** `alphabet.charAt(Math.floor(r * alphabet.length))`. */
  function CharFromDraw(alphabet: string, r: real): (c: char)
    requires alphabet != [] && IsRandomDraw(r)
    ensures c in alphabet
  {
    alphabet[DrawIndex(r, |alphabet|)]
  }

  /** Every index of an alphabet of size `n` is picked by exactly the draws in an interval of
      width 1/n, so a uniform draw picks each character with the same chance. */
  lemma DrawIndexInterval(r: real, n: nat, k: int)
    requires IsRandomDraw(r) && n > 0
    ensures DrawIndex(r, n) == k <==> k as real <= r * n as real < (k + 1) as real
  {
  }

  predicate IsUpper(c: char) {
    'A' <= c <= 'Z'
  }

  predicate IsDigit(c: char) {
    '0' <= c <= '9'
  }

  /** The shape of every generated code: letter, letter, four digits, letter. */
  predicate IsFileNumber(code: string) {
    && |code| == 7
    && IsUpper(code[0]) && IsUpper(code[1])
    && IsDigit(code[2]) && IsDigit(code[3]) && IsDigit(code[4]) && IsDigit(code[5])
    && IsUpper(code[6])
  }

  /** The code built from `draws`: the first two and the last draw pick letters, the others
      digits. */
  function CodeFromDraws(draws: seq<real>): (code: string)
    requires IsDrawSequence(draws)
  {
    [CharFromDraw(Letters, draws[0]), CharFromDraw(Letters, draws[1]),
     CharFromDraw(Digits, draws[2]), CharFromDraw(Digits, draws[3]),
     CharFromDraw(Digits, draws[4]), CharFromDraw(Digits, draws[5]),
     CharFromDraw(Letters, draws[6])]
  }

  lemma LettersAt(k: nat)
    requires k < 26
    ensures |Letters| == 26 && Letters[k] == ('A' as int + k) as char
  {
    assert Letters == seq(26, i requires 0 <= i < 26 => ('A' as int + i) as char);
  }

  lemma DigitsAt(k: nat)
    requires k < 10
    ensures |Digits| == 10 && Digits[k] == ('0' as int + k) as char
  {
    assert Digits == seq(10, i requires 0 <= i < 10 => ('0' as int + i) as char);
  }

  lemma LetterIsUpper(r: real)
    requires IsRandomDraw(r)
    ensures IsUpper(CharFromDraw(Letters, r))
  {
    LettersAt(DrawIndex(r, 26));
  }

  lemma DigitIsDigit(r: real)
    requires IsRandomDraw(r)
    ensures IsDigit(CharFromDraw(Digits, r))
  {
    DigitsAt(DrawIndex(r, 10));
  }

  /** `generateUniqueFileNumber`: appends two letters, then four digits, then one letter. The
      result always has exactly seven characters, never six. */
  method GenerateUniqueFileNumber(draws: seq<real>) returns (code: string)
    requires IsDrawSequence(draws)
    ensures code == CodeFromDraws(draws)
    ensures IsFileNumber(code)
  {
    ghost var target := CodeFromDraws(draws);
    code := "";
    for i := 0 to 2
      invariant code == target[..i]
    {
      code := code + [CharFromDraw(Letters, draws[i])];
    }
    for i := 0 to 4
      invariant code == target[..2 + i]
    {
      code := code + [CharFromDraw(Digits, draws[2 + i])];
    }
    code := code + [CharFromDraw(Letters, draws[6])];
    assert code == target;
    LetterIsUpper(draws[0]);
    LetterIsUpper(draws[1]);
    DigitIsDigit(draws[2]);
    DigitIsDigit(draws[3]);
    DigitIsDigit(draws[4]);
    DigitIsDigit(draws[5]);
    LetterIsUpper(draws[6]);
  }

  /** The draw that picks index `k` of an alphabet of size `n`. */
  function DrawFor(k: nat, n: nat): (r: real)
    requires k < n
    ensures IsRandomDraw(r) && DrawIndex(r, n) == k
  {
    var r := k as real / n as real;
    assert r * n as real == k as real;
    r
  }

  /** A draw that makes `charAt` pick the upper-case letter `c`. */
  function LetterDraw(c: char): (r: real)
    requires IsUpper(c)
    ensures IsRandomDraw(r) && CharFromDraw(Letters, r) == c
  {
    LettersAt(c as int - 'A' as int);
    DrawFor(c as int - 'A' as int, 26)
  }

  /** A draw that makes `charAt` pick the digit `c`. */
  function DigitDraw(c: char): (r: real)
    requires IsDigit(c)
    ensures IsRandomDraw(r) && CharFromDraw(Digits, r) == c
  {
    DigitsAt(c as int - '0' as int);
    DrawFor(c as int - '0' as int, 10)
  }

  /** Every code of the right shape can be generated: the generator reaches the whole pattern. */
  lemma EveryFileNumberIsGenerated(code: string)
    requires IsFileNumber(code)
    ensures exists draws :: IsDrawSequence(draws) && CodeFromDraws(draws) == code
  {
    var draws := [LetterDraw(code[0]), LetterDraw(code[1]), DigitDraw(code[2]), DigitDraw(code[3]),
                  DigitDraw(code[4]), DigitDraw(code[5]), LetterDraw(code[6])];
    assert IsDrawSequence(draws);
    assert CodeFromDraws(draws) == code;
  }
}
