/** Random short codes over a 36-symbol alphabet (CodeGenerator).

    `Math.random()` is not modelled as a floating-point source: each call is
    a "draw", a real number in [0, 1) that the caller supplies, and the k-th
    character of a code is chosen by the k-th draw. */
module CodeGenerator {

  const Chars: string := "abcdefghijklmnopqrstuvwxyz0123456789"

  /** A value `Math.random()` can return. */
  predicate IsDraw(r: real) { 0.0 <= r < 1.0 }

  predicate AllDraws(draws: seq<real>) { forall i | 0 <= i < |draws| :: IsDraw(draws[i]) }

  /** Every character of `code` is one of the alphabet's. */
  predicate InAlphabet(code: string) { forall i | 0 <= i < |code| :: code[i] in Chars }

  /** `(int) Math.floor(draw * length)`: always a valid index. */
  function RandomIndex(length: nat, draw: real): (i: int)
    requires length > 0 && IsDraw(draw)
    ensures 0 <= i < length
  {
    var n := length as real;
    assert draw * n < n by { assert (1.0 - draw) * n > 0.0; }
    (draw * n).Floor
  }

  /** `getRandomChar`: a character of `str` chosen by one draw. */
  function RandomChar(str: string, draw: real): (c: char)
    requires |str| > 0 && IsDraw(draw)
    ensures exists i | 0 <= i < |str| :: str[i] == c
  {
    str[RandomIndex(|str|, draw)]
  }

  /** The code that a sequence of draws spells, one character per draw. */
  ghost function CodeFrom(draws: seq<real>): (code: string)
    requires AllDraws(draws)
    ensures |code| == |draws|
  {
    if draws == [] then [] else CodeFrom(draws[..|draws| - 1]) + [RandomChar(Chars, draws[|draws| - 1])]
  }

  /** Every character a sequence of draws spells is in the alphabet. */
  lemma {:induction false} CodeFromInAlphabet(draws: seq<real>)
    requires AllDraws(draws)
    ensures InAlphabet(CodeFrom(draws))
  {
    if draws != [] {
      CodeFromInAlphabet(draws[..|draws| - 1]);
    }
  }

  /** `get(codeSize)`: `codeSize` characters of the alphabet (none when
      `codeSize` is not positive), consuming one draw per character. */
  method Get(codeSize: int, draws: seq<real>) returns (code: string)
    requires AllDraws(draws) && codeSize <= |draws|
    ensures |code| == if codeSize < 0 then 0 else codeSize
    ensures InAlphabet(code)
    ensures code == CodeFrom(draws[..|code|])
  {
    var chars := Chars;
    var builder := "";
    var currChar := 0;
    while currChar < codeSize
      invariant 0 <= currChar && (codeSize < 0 ==> currChar == 0) && (codeSize >= 0 ==> currChar <= codeSize)
      invariant currChar <= |draws|
      invariant builder == CodeFrom(draws[..currChar])
    {
      ghost var prefix := draws[..currChar + 1];
      assert prefix[..|prefix| - 1] == draws[..currChar];
      builder := builder + [RandomChar(chars, draws[currChar])];
      currChar := currChar + 1;
    }
    code := builder;
    CodeFromInAlphabet(draws[..|code|]);
  }
}
