/**
 * The pure helpers of utils/utilities.ts: fixed-point scaling of token
 * amounts, millisecond to second timestamps, the JSON-array fix-up, the
 * Tron endpoint selection, and the hex-length normalisation and address
 * rewriting around ABI decoding in `decodeParams`.
 */
module Utilities {
  import opened Wrappers

  // ---------------------------------------------------------------------
  // Fixed-point scaling
  // ---------------------------------------------------------------------

  function Pow(base: nat, exp: nat): nat
  {
    if exp == 0 then 1 else base * Pow(base, exp - 1)
  }

  /** One whole token in 18-decimal base units. */
  const TokenUnit: nat := Pow(10, 18)

  /** `Q112`: the scale of the UQ112x112 fixed-point format. */
  const Q112: nat := Pow(2, 112)

  lemma {:induction false} PowSplit(base: nat, e1: nat, e2: nat)
    ensures Pow(base, e1 + e2) == Pow(base, e1) * Pow(base, e2)
    decreases e1
  {
    if e1 > 0 {
      PowSplit(base, e1 - 1, e2);
      var p, q := Pow(base, e1 - 1), Pow(base, e2);
      assert Pow(base, e1 + e2) == base * (p * q);
      assert base * (p * q) == (base * p) * q;
    }
  }

  /** The two scales as decimal literals. */
  lemma ScaleValues()
    ensures TokenUnit == 1_000_000_000_000_000_000
    ensures Q112 == 5192296858534827628530496329220096
  {
    PowSplit(10, 9, 9);
    assert Pow(10, 9) == 1_000_000_000;
    PowSplit(2, 56, 56);
    PowSplit(2, 28, 28);
    PowSplit(2, 14, 14);
    assert Pow(2, 14) == 16384;
  }

  /**
   * `expandTo18Decimals(n)`: `n` whole tokens in base units; the amount is
   * a whole number of tokens and dividing by 10^18 recovers `n`.
   */
  function ExpandTo18Decimals(n: int): (r: int)
    ensures r % 1_000_000_000_000_000_000 == 0
    ensures r / 1_000_000_000_000_000_000 == n
  {
    ScaleValues();
    n * TokenUnit
  }

  /** `toUQ112(value)`: `value` as a UQ112x112 fixed-point number, whose integer part is `value`. */
  function ToUQ112(value: int): (r: int)
    ensures r % 5192296858534827628530496329220096 == 0
    ensures r / 5192296858534827628530496329220096 == value
  {
    ScaleValues();
    value * Q112
  }

  // ---------------------------------------------------------------------
  // Timestamps
  // ---------------------------------------------------------------------

  /**
   * `getUnixTimestamp`: the whole seconds in a millisecond instant, rounded
   * down (towards minus infinity for instants before 1970).
   */
  function GetUnixTimestamp(millis: int): (r: int)
    ensures r * 1000 <= millis < r * 1000 + 1000
  {
    millis / 1000
  }

  // ---------------------------------------------------------------------
  // formatJson
  // ---------------------------------------------------------------------

  /** `s.replace(/\n$/, '')`: removes one newline at the very end. */
  function StripTrailingNewline(s: string): (r: string)
    ensures if |s| > 0 && s[|s| - 1] == '\n' then s == r + "\n" else r == s
    ensures r <= s
  {
    if |s| > 0 && s[|s| - 1] == '\n' then s[..|s| - 1] else s
  }

  /** `s.slice(0, -1)`: drops the last character, if any. */
  function DropLast(s: string): (r: string)
    ensures |r| == if s == [] then 0 else |s| - 1
    ensures r <= s
  {
    if s == [] then [] else s[..|s| - 1]
  }

  /**
   * `formatJson`: text already starting with `[` is returned as it is; any
   * other text (the empty string included) loses one trailing newline and
   * then its last character (a trailing comma) and is wrapped in brackets.
   */
  function FormatJson(data: string): (r: string)
    ensures |data| > 0 && data[0] == '[' ==> r == data
    ensures !(|data| > 0 && data[0] == '[') ==>
      && |r| >= 2 && r[0] == '[' && r[|r| - 1] == ']'
      && r[1..|r| - 1] <= data
      && |r| - 2 == (if |StripTrailingNewline(data)| == 0 then 0 else |StripTrailingNewline(data)| - 1)
  {
    if |data| > 0 && data[0] == '[' then data
    else
      var stripped := StripTrailingNewline(data);
      var body := DropLast(stripped);
      assert body <= data by {
        assert body == stripped[..|body|] && stripped == data[..|stripped|];
      }
      var r := "[" + body + "]";
      assert r[1..|r| - 1] == body;
      r
  }

  /** Formatting twice is the same as formatting once. */
  lemma FormatJsonIdempotent(data: string)
    ensures FormatJson(FormatJson(data)) == FormatJson(data)
  {
    var r := FormatJson(data);
    assert |r| > 0 && r[0] == '[';
  }

  // ---------------------------------------------------------------------
  // tronDetails
  // ---------------------------------------------------------------------

  datatype TronDetails = TronDetails(fullHost: string, solidityNode: string, eventServer: string)

  const MainnetNode: string := "https://api.trongrid.io"
  const TestnetNode: string := "https://api.shasta.trongrid.io"

  /**
   * `tronDetails(network)`: all three endpoints are the TronGrid main node
   * for `mainnetTron` and the Shasta test node for every other name.
   */
  function GetTronDetails(network: string): (r: TronDetails)
    ensures r.fullHost == r.solidityNode == r.eventServer
    ensures r.fullHost == MainnetNode <==> network == "mainnetTron"
    ensures network != "mainnetTron" ==> r.fullHost == TestnetNode
  {
    match network
    case "mainnetTron" => TronDetails(MainnetNode, MainnetNode, MainnetNode)
    case _ => TronDetails(TestnetNode, TestnetNode, TestnetNode)
  }

  // ---------------------------------------------------------------------
  // decodeParams
  // ---------------------------------------------------------------------

  /** `ADDRESS_PREFIX`: Tron addresses in hex start with the byte 0x41. */
  const AddressPrefix: string := "41"

  const LengthError: string := "The encoded string is not valid. Its length must be a multiple of 64."

  /** The second argument of `decodeParams`, whose JavaScript type varies. */
  datatype OutputArg = Text(text: string) | Flag(flag: bool) | Missing

  /** How a call to `decodeParams` fails. */
  datatype DecodeError =
    | NotAString      // `output.replace` called on the `types` array
    | BadLength(message: string)

  /** `s.replace(/^0x/, '')`: removes one leading lower-case `0x`. */
  function StripHexPrefix(s: string): (r: string)
    ensures if |s| >= 2 && s[..2] == "0x" then s == "0x" + r else r == s
  {
    if |s| >= 2 && s[..2] == "0x" then s[2..] else s
  }

  /** ASCII upper-case letters become lower case; everything else is kept. */
  function LowerChar(c: char): (r: char)
    ensures !('A' <= r <= 'Z')
    ensures 'A' <= c <= 'Z' ==> 'a' <= r <= 'z' && r as int - 'a' as int == c as int - 'A' as int
    ensures !('A' <= c <= 'Z') ==> r == c
  {
    if 'A' <= c <= 'Z' then (c as int - 'A' as int + 'a' as int) as char else c
  }

  /** `s.toLowerCase()` on ASCII text. */
  function ToLower(s: string): (r: string)
    ensures |r| == |s|
    ensures forall i :: 0 <= i < |s| ==> r[i] == LowerChar(s[i])
  {
    if s == [] then [] else [LowerChar(s[0])] + ToLower(s[1..])
  }

  /** `s.substr(2)`: everything after the first two characters. */
  function Drop2(s: string): (r: string)
    ensures |s| >= 2 ==> s == s[..2] + r
    ensures |s| < 2 ==> r == []
  {
    if |s| >= 2 then s[2..] else []
  }

  /**
   * The rewrite of a decoded `address`: its `0x` replaced by the Tron prefix
   * `41` and its hex digits in lower case.
   */
  function TronAddress(arg: string): (r: string)
    ensures |r| >= 2 && r[..2] == AddressPrefix
    ensures |arg| >= 2 ==> |r| == |arg| && forall i :: 2 <= i < |r| ==> r[i] == LowerChar(arg[i])
    ensures |arg| < 2 ==> r == AddressPrefix
  {
    AddressPrefix + ToLower(Drop2(arg))
  }

  /** A lower-case Ethereum-style address keeps its 40 digits and only changes prefix. */
  lemma TronAddressOfLowerHex(digits: string)
    requires forall i :: 0 <= i < |digits| ==> !('A' <= digits[i] <= 'Z')
    ensures TronAddress("0x" + digits) == AddressPrefix + digits
  {
    var arg := "0x" + digits;
    assert Drop2(arg) == digits;
    assert ToLower(digits) == digits;
  }

  /**
   * The hex text that is decoded: with `ignoreMethodHash` set and a length
   * of 8 more than a multiple of 64, the first 8 digits after `0x` (the
   * method selector) are dropped.
   */
  function StripMethodHash(output: string, ignoreMethodHash: bool): (r: string)
    ensures var h := StripHexPrefix(output);
      if ignoreMethodHash && |h| % 64 == 8
      then r == "0x" + h[8..] && StripHexPrefix(r) == h[8..] && h == h[..8] + StripHexPrefix(r)
      else r == output
  {
    var h := StripHexPrefix(output);
    if ignoreMethodHash && |h| % 64 == 8 then
      var r := "0x" + h[8..];
      assert r[..2] == "0x" && r[2..] == h[8..];
      r
    else output
  }

  /** Dropping the method selector always leaves a whole number of 32-byte words. */
  lemma StripMethodHashAligns(output: string)
    requires |StripHexPrefix(output)| % 64 == 8
    ensures |StripHexPrefix(StripMethodHash(output, true))| % 64 == 0
  {
  }

  /**
   * `decodeParams(types, output, ignoreMethodHash)`. A missing, empty or
   * boolean `output` makes the call shift its arguments, which puts the
   * `types` array where the hex text belongs and fails. Otherwise the
   * method selector is dropped when asked for and present, a length that is
   * not a multiple of 64 hex digits fails, and the values `abiDecode`
   * returns are kept in order, each `address` rewritten to its Tron form.
   */
  method DecodeParams(
    types: seq<string>,
    output: OutputArg,
    ignoreMethodHash: bool,
    abiDecode: (seq<string>, string) -> seq<string>
  ) returns (r: Result<seq<string>, DecodeError>)
    ensures !output.Text? || output.text == [] ==> r == Err(NotAString)
    ensures output.Text? && output.text != [] ==>
      var hex := StripMethodHash(output.text, ignoreMethodHash);
      && (r.Err? <==> |StripHexPrefix(hex)| % 64 != 0)
      && (r.Err? ==> r.error == BadLength(LengthError))
      && (r.Ok? ==> |r.value| == |abiDecode(types, hex)|)
      && (r.Ok? ==> forall i :: 0 <= i < |r.value| ==>
            r.value[i] == if i < |types| && types[i] == "address"
                          then TronAddress(abiDecode(types, hex)[i])
                          else abiDecode(types, hex)[i])
  {
    if !output.Text? || output.text == [] {
      // `ignoreMethodHash = output; output = types`: `types` has no `replace`.
      return Err(NotAString);
    }
    var text := output.text;
    if ignoreMethodHash && |StripHexPrefix(text)| % 64 == 8 {
      text := "0x" + StripHexPrefix(text)[8..];
    }
    assert text == StripMethodHash(output.text, ignoreMethodHash);
    if |StripHexPrefix(text)| % 64 != 0 {
      return Err(BadLength(LengthError));
    }
    var obj := RewriteAddresses(types, abiDecode(types, text));
    return Ok(obj);
  }

  /**
   * The `reduce` of `decodeParams`: the decoded values in order, each one
   * whose declared type is `address` rewritten to its Tron form.
   */
  method RewriteAddresses(types: seq<string>, decoded: seq<string>) returns (obj: seq<string>)
    ensures |obj| == |decoded|
    ensures forall i :: 0 <= i < |decoded| ==>
      obj[i] == if i < |types| && types[i] == "address" then TronAddress(decoded[i]) else decoded[i]
  {
    obj := [];
    for index := 0 to |decoded|
      invariant |obj| == index
      invariant forall i :: 0 <= i < index ==>
        obj[i] == if i < |types| && types[i] == "address" then TronAddress(decoded[i]) else decoded[i]
    {
      var arg := decoded[index];
      if index < |types| && types[index] == "address" {
        arg := TronAddress(arg);
      }
      obj := obj + [arg];
    }
  }
}
