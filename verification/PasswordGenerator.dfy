/**
 `generatePassword` of the crypto service: a pool made of the enabled character classes, in
 the fixed order lower case, upper case, digits, symbols, and one `Uint32` draw per position
 reduced modulo the pool size. The draws of `crypto.getRandomValues` are a parameter; its one
 failure, a request for more than 65536 bytes, is modelled.
 */
module PasswordGenerator {
  import opened Wrappers
  import Ascii

  type uint32 = x: int | 0 <= x < 0x1_0000_0000

  const Symbols: string := "!@#$%^&*()-_=+[]{};:,.<>/?"

  /** The `options` argument; the default enables every class. */
  datatype Options = Options(upper: bool, lower: bool, digits: bool, symbols: bool)

  const DefaultLength: nat := 16
  const AllClasses: Options := Options(true, true, true, true)

  /** The options the vault screen passes: letters and digits, no symbols. */
  const VaultOptions: Options := Options(upper := true, lower := true, digits := true, symbols := false)

  /** `EmptyCharset` replaces the "undefined" text of an empty pool; `QuotaExceeded` is the
      `QuotaExceededError` that `getRandomValues` throws for an array of more than 65536 bytes
      (the Web Cryptography API, `Crypto.getRandomValues`). */
  datatype GenerateError = EmptyCharset | QuotaExceeded

  /** The byte quota of one `getRandomValues` call, and the longest `Uint32Array` within it. */
  const RandomQuotaBytes: nat := 65536
  const MaxLength: nat := RandomQuotaBytes / 4

  /** The pool `sets.join('')` builds from the enabled classes. */
  function Pool(o: Options): (pool: string)
    ensures |pool| == (if o.lower then 26 else 0) + (if o.upper then 26 else 0)
                      + (if o.digits then 10 else 0) + (if o.symbols then |Symbols| else 0)
    ensures forall c :: c in pool <==>
              (o.lower && c in Ascii.Lower) || (o.upper && c in Ascii.Upper) ||
              (o.digits && c in Ascii.Digits) || (o.symbols && c in Symbols)
  {
    (if o.lower then Ascii.Lower else "") + (if o.upper then Ascii.Upper else "")
    + (if o.digits then Ascii.Digits else "") + (if o.symbols then Symbols else "")
  }

  /** The pool of the vault screen is exactly the 62 ASCII letters and digits. */
  lemma VaultPoolIsAlphanumeric()
    ensures Pool(VaultOptions) == Ascii.Lower + Ascii.Upper + Ascii.Digits
    ensures |Pool(VaultOptions)| == 62
    ensures forall i :: 0 <= i < 62 ==> Ascii.IsAlphanumeric(Pool(VaultOptions)[i])
    ensures forall c :: Ascii.IsAlphanumeric(c) ==> c in Pool(VaultOptions)
  {
    var pool := Pool(VaultOptions);
    Ascii.ClassesInCodeOrder();
    assert pool == Ascii.Lower + Ascii.Upper + Ascii.Digits;
    forall c | Ascii.IsAlphanumeric(c)
      ensures c in pool
    {
      if Ascii.IsLower(c) {
        assert pool[c as int - 'a' as int] == c;
      } else if Ascii.IsUpper(c) {
        assert pool[26 + (c as int - 'A' as int)] == c;
      } else {
        assert pool[52 + (c as int - '0' as int)] == c;
      }
    }
  }

  /**
   The character that position `i` appends, as the JavaScript expression
   `all[rnd[i] % all.length]` evaluates it: on an empty pool the remainder is NaN, the
   lookup yields `undefined`, and `+=` appends the text "undefined".
   */
  function PickAsWritten(pool: string, draw: uint32): string {
    if |pool| == 0 then "undefined" else [pool[draw % |pool|]]
  }

  /** The loop of `generatePassword` exactly as written, for every options value. */
  function GeneratePasswordAsWritten(o: Options, rnd: seq<uint32>): (pw: string)
    ensures |Pool(o)| > 0 ==> |pw| == |rnd| && forall i :: 0 <= i < |rnd| ==> pw[i] == Pool(o)[rnd[i] % |Pool(o)|]
    ensures |Pool(o)| == 0 ==> |pw| == 9 * |rnd|
  {
    if |rnd| == 0 then ""
    else GeneratePasswordAsWritten(o, rnd[..|rnd| - 1]) + PickAsWritten(Pool(o), rnd[|rnd| - 1])
  }

  /** On an empty pool each position of the loop as written appends the text "undefined". */
  lemma {:induction false} EmptyPoolSpellsUndefined(o: Options, rnd: seq<uint32>)
    requires |Pool(o)| == 0
    ensures var pw := GeneratePasswordAsWritten(o, rnd);
            |pw| == 9 * |rnd| && forall i :: 0 <= i < |rnd| ==> pw[9 * i .. 9 * i + 9] == "undefined"
    decreases |rnd|
  {
    if |rnd| > 0 {
      var n := |rnd| - 1;
      var prefix := GeneratePasswordAsWritten(o, rnd[..n]);
      EmptyPoolSpellsUndefined(o, rnd[..n]);
      var pw := GeneratePasswordAsWritten(o, rnd);
      assert pw == prefix + "undefined";
      forall i | 0 <= i < |rnd|
        ensures pw[9 * i .. 9 * i + 9] == "undefined"
      {
        NinthsInRange(i, n);
        if i < n {
          SliceOfPrefix(prefix, "undefined", 9 * i, 9 * i + 9);
        } else {
          assert pw[9 * i .. 9 * i + 9] == pw[|prefix|..];
        }
      }
    }
  }

  lemma NinthsInRange(i: nat, n: nat)
    requires i <= n
    ensures i < n ==> 9 * i + 9 <= 9 * n
    ensures i == n ==> 9 * i == 9 * n
  {
  }

  lemma SliceOfPrefix(a: string, b: string, k: nat, j: nat)
    requires k <= j <= |a|
    ensures (a + b)[k..j] == a[k..j]
  {
  }

  /** With every class switched off the code returns "undefined" once per position, not a
      password of the requested length. */
  lemma EmptyPoolAsWritten(rnd: seq<uint32>)
    requires |rnd| == DefaultLength
    ensures var pw := GeneratePasswordAsWritten(Options(false, false, false, false), rnd);
            |pw| == 144 && |pw| != DefaultLength
  {
  }

  /**
   `generatePassword(length, options)` with the empty pool rejected: `rnd` holds the `length`
   values `crypto.getRandomValues` wrote into the `Uint32Array`, when the array is within its
   quota. The draw happens before the loop, so an oversized request fails whatever the pool.
   The defaults are those of the source: 16 characters from every class.
   */
  method GeneratePassword(rnd: seq<uint32>, length: nat := DefaultLength, o: Options := AllClasses) returns (r: Result<string, GenerateError>)
    requires |rnd| == length
    ensures r == Failure(QuotaExceeded) <==> length > MaxLength
    ensures r == Failure(EmptyCharset) <==> length <= MaxLength && |Pool(o)| == 0
    ensures r.Success? <==> length <= MaxLength && |Pool(o)| > 0
    ensures r.Success? ==>
              |Pool(o)| > 0 && |r.value| == length &&
              forall i :: 0 <= i < length ==> r.value[i] == Pool(o)[rnd[i] % |Pool(o)|]
    ensures r.Success? ==> |r.value| == length && forall i :: 0 <= i < length ==> r.value[i] in Pool(o)
    ensures r.Success? ==> r.value == GeneratePasswordAsWritten(o, rnd)
  {
    var all := Pool(o);
    if 4 * length > RandomQuotaBytes {
      return Failure(QuotaExceeded);
    }
    if |all| == 0 {
      return Failure(EmptyCharset);
    }
    var pw := "";
    var i := 0;
    while i < length
      invariant 0 <= i <= length
      invariant |pw| == i
      invariant forall j :: 0 <= j < i ==> pw[j] == all[rnd[j] % |all|]
    {
      pw := pw + [all[rnd[i] % |all|]];
      i := i + 1;
    }
    return Success(pw);
  }
}
