/**
 * The shared definitions of src/shared.rs: the fixed-size byte types, the
 * failure taxonomy of the peers, and the parse performed by `read_key` on the
 * text of a key file: comma-separated decimal bytes, each trimmed of
 * whitespace and read as a `u8`, with a check of the total length.
 */
module Shared {
  import opened Wrappers

  type byte = b: int | 0 <= b < 0x100

  const SHARED_SECRET_BYTES: nat := 32
  const CIPHERTEXT_BYTES: nat := 1088
  const NONCE_BYTES: nat := 12

  /** `[u8; 32]`: the KEM shared secret, also the AES-256-GCM key. */
  type SharedSecret = s: seq<byte> | |s| == SHARED_SECRET_BYTES witness seq(SHARED_SECRET_BYTES, _ => 0)
  /** `[u8; 1088]`: a Kyber ciphertext. */
  type CipherText = s: seq<byte> | |s| == CIPHERTEXT_BYTES witness seq(CIPHERTEXT_BYTES, _ => 0)
  /** `GenericArray<u8, U12>`: an AES-GCM nonce. */
  type Nonce = s: seq<byte> | |s| == NONCE_BYTES witness seq(NONCE_BYTES, _ => 0)

  /** Why `read_key` rejects the text of a key file. */
  datatype KeyError =
    | InvalidByte                                  // a field is not a `u8` (the `unwrap` of the collect)
    | InvalidLength(expected: nat, actual: nat)    // the field count differs from the expected length

  /** Every point where a peer of the source panics, as a value. */
  datatype Failure =
    | KeyLoadFailed(reason: KeyError)   // `read_key` in `Server::new` / `Client::new`
    | KeypairFailed                     // `keypair(..).unwrap()`
    | VerificationFailed                // the signature of the Kyber public key does not verify
    | EncapsulationFailed               // `encapsulate(..).unwrap()`
    | DecapsulationFailed               // `decapsulate(..).unwrap()`
    | MissingSharedSecret               // encrypt/decrypt before a shared secret exists
    | EncryptionFailed                  // `cipher.encrypt(..).unwrap()`
    | DecryptionFailed                  // `cipher.decrypt(..).unwrap()`: the tag does not verify

  // ---------------------------------------------------------------------------
  // `str::split(',')`
  // ---------------------------------------------------------------------------

  /** Number of occurrences of `c` in `s`. */
  function Count(s: string, c: char): nat
  {
    if |s| == 0 then 0 else (if s[0] == c then 1 else 0) + Count(s[1..], c)
  }

  /**
   * The fields of `s` between commas, as `str::split(',')` yields them: the
   * empty string gives one empty field, and a leading or trailing comma gives
   * an empty first or last field.
   */
  function Split(s: string): (fields: seq<string>)
    ensures |fields| >= 1
  {
    if |s| == 0 then [""]
    else
      var rest := Split(s[1..]);
      if s[0] == ',' then [""] + rest
      else [[s[0]] + rest[0]] + rest[1..]
  }

  /** The fields joined with commas; the inverse of `Split`. */
  function Join(fields: seq<string>): string
    requires |fields| >= 1
  {
    if |fields| == 1 then fields[0] else fields[0] + "," + Join(fields[1..])
  }

  predicate CommaFree(f: string)
  {
    forall i :: 0 <= i < |f| ==> f[i] != ','
  }

  /** Splitting on every comma gives one field more than there are commas. */
  lemma {:induction false} SplitFieldCount(s: string)
    ensures |Split(s)| == Count(s, ',') + 1
  {
    if |s| > 0 {
      SplitFieldCount(s[1..]);
    }
  }

  /** No field contains the separator. */
  lemma {:induction false} SplitFieldsCommaFree(s: string)
    ensures forall i :: 0 <= i < |Split(s)| ==> CommaFree(Split(s)[i])
  {
    if |s| > 0 {
      SplitFieldsCommaFree(s[1..]);
      var rest := Split(s[1..]);
      if s[0] != ',' {
        assert CommaFree(rest[0]);
        assert CommaFree([s[0]] + rest[0]);
        forall i | 1 <= i < |Split(s)| ensures CommaFree(Split(s)[i]) {
          assert Split(s)[i] == rest[i];
        }
      } else {
        forall i | 1 <= i < |Split(s)| ensures CommaFree(Split(s)[i]) {
          assert Split(s)[i] == rest[i - 1];
        }
      }
    }
  }

  /** Joining the fields with commas gives back the input. */
  lemma {:induction false} JoinSplit(s: string)
    ensures Join(Split(s)) == s
  {
    if |s| > 0 {
      JoinSplit(s[1..]);
      var rest := Split(s[1..]);
      if s[0] == ',' {
        assert ([""] + rest)[1..] == rest;
        assert Join([""] + rest) == "" + "," + Join(rest);
      } else if |rest| == 1 {
        assert Join(Split(s)) == [s[0]] + rest[0];
      } else {
        var first := [s[0]] + rest[0];
        assert ([first] + rest[1..])[1..] == rest[1..];
        assert Join(Split(s)) == first + "," + Join(rest[1..]);
        assert Join(rest) == rest[0] + "," + Join(rest[1..]);
      }
    }
  }

  /** A comma-free prefix is glued to the first field of what follows it. */
  lemma {:induction false} SplitCommaFreePrefix(f: string, t: string)
    requires CommaFree(f)
    ensures Split(f + t) == [f + Split(t)[0]] + Split(t)[1..]
  {
    if |f| == 0 {
      assert f + t == t;
      assert f + Split(t)[0] == Split(t)[0];
      assert Split(t) == [Split(t)[0]] + Split(t)[1..];
    } else {
      assert (f + t)[0] == f[0] && (f + t)[1..] == f[1..] + t;
      assert CommaFree(f[1..]) by {
        forall i | 0 <= i < |f[1..]| ensures f[1..][i] != ',' {
          assert f[1..][i] == f[i + 1];
        }
      }
      SplitCommaFreePrefix(f[1..], t);
      assert [f[0]] + (f[1..] + Split(t)[0]) == f + Split(t)[0];
    }
  }

  /** Splitting comma-free fields joined with commas gives back the fields. */
  lemma {:induction false} SplitJoin(fields: seq<string>)
    requires |fields| >= 1
    requires forall i :: 0 <= i < |fields| ==> CommaFree(fields[i])
    ensures Split(Join(fields)) == fields
  {
    if |fields| == 1 {
      SplitCommaFreePrefix(fields[0], "");
      assert fields[0] + "" == fields[0];
    } else {
      var tail := Join(fields[1..]);
      SplitJoin(fields[1..]);
      SplitCommaFreePrefix(fields[0], "," + tail);
      assert ("," + tail)[1..] == tail;
      assert Split("," + tail) == [""] + fields[1..];
      assert fields[0] + "" == fields[0];
      assert Join(fields) == fields[0] + ("," + tail);
    }
  }

  // ---------------------------------------------------------------------------
  // `str::trim`
  // ---------------------------------------------------------------------------

  /** Rust's `char::is_whitespace`: the Unicode White_Space property. */
  predicate IsWhitespace(c: char)
  {
    || ('\t' <= c <= '\r')
    || c == ' '
    || c == '\U{0085}' || c == '\U{00A0}' || c == '\U{1680}'
    || ('\U{2000}' <= c <= '\U{200A}')
    || c == '\U{2028}' || c == '\U{2029}' || c == '\U{202F}' || c == '\U{205F}' || c == '\U{3000}'
  }

  predicate AllWhitespace(s: string)
  {
    forall i :: 0 <= i < |s| ==> IsWhitespace(s[i])
  }

  /** `s` with its leading whitespace removed: a suffix of `s`. */
  function TrimStart(s: string): (r: string)
    ensures |r| <= |s| && r == s[|s| - |r|..]
    ensures |r| > 0 ==> !IsWhitespace(r[0])
  {
    if |s| > 0 && IsWhitespace(s[0]) then TrimStart(s[1..]) else s
  }

  /** `s` with its trailing whitespace removed: a prefix of `s`. */
  function TrimEnd(s: string): (r: string)
    ensures |r| <= |s| && r == s[..|r|]
    ensures |r| > 0 ==> !IsWhitespace(r[|r| - 1])
  {
    if |s| > 0 && IsWhitespace(s[|s| - 1]) then TrimEnd(s[..|s| - 1]) else s
  }

  /** `str::trim`: neither end of the result is whitespace. */
  function Trim(s: string): (r: string)
    ensures |r| <= |s|
    ensures |r| > 0 ==> !IsWhitespace(r[0]) && !IsWhitespace(r[|r| - 1])
  {
    var t := TrimStart(s);
    var r := TrimEnd(t);
    assert |r| > 0 ==> r[0] == t[0];
    r
  }

  lemma {:induction false} TrimStartSkips(pre: string, x: string)
    requires AllWhitespace(pre)
    ensures TrimStart(pre + x) == TrimStart(x)
  {
    if |pre| > 0 {
      assert (pre + x)[0] == pre[0] && (pre + x)[1..] == pre[1..] + x;
      assert AllWhitespace(pre[1..]) by {
        forall i | 0 <= i < |pre[1..]| ensures IsWhitespace(pre[1..][i]) {
          assert pre[1..][i] == pre[i + 1];
        }
      }
      TrimStartSkips(pre[1..], x);
    } else {
      assert pre + x == x;
    }
  }

  lemma {:induction false} TrimEndSkips(x: string, post: string)
    requires AllWhitespace(post)
    ensures TrimEnd(x + post) == TrimEnd(x)
  {
    if |post| > 0 {
      var s := x + post;
      var shorter := post[..|post| - 1];
      assert s[|s| - 1] == post[|post| - 1];
      assert s[..|s| - 1] == x + shorter;
      assert AllWhitespace(shorter) by {
        forall i | 0 <= i < |shorter| ensures IsWhitespace(shorter[i]) {
          assert shorter[i] == post[i];
        }
      }
      TrimEndSkips(x, shorter);
    } else {
      assert x + post == x;
    }
  }

  /**
   * `Trim` removes exactly whitespace-only padding: a text whose ends are not
   * whitespace comes back unchanged from any padding on either side.
   */
  lemma TrimPadded(pre: string, core: string, post: string)
    requires AllWhitespace(pre) && AllWhitespace(post)
    requires |core| > 0 ==> !IsWhitespace(core[0]) && !IsWhitespace(core[|core| - 1])
    ensures Trim(pre + core + post) == core
  {
    assert pre + core + post == pre + (core + post);
    TrimStartSkips(pre, core + post);
    if |core| > 0 {
      assert (core + post)[0] == core[0];
      assert TrimStart(core + post) == core + post;
      TrimEndSkips(core, post);
      assert TrimEnd(core) == core;
    } else {
      assert core + post == post;
      TrimStartSkips(post, "");
      assert post + "" == post;
    }
  }

  // ---------------------------------------------------------------------------
  // `u8::from_str`
  // ---------------------------------------------------------------------------

  predicate IsDigit(c: char)
  {
    '0' <= c <= '9'
  }

  predicate AllDigits(s: string)
  {
    forall i :: 0 <= i < |s| ==> IsDigit(s[i])
  }

  function DigitValue(c: char): nat
    requires IsDigit(c)
  {
    c as int - '0' as int
  }

  /** The unchecked value of the digits `d` read after the value `acc`. */
  function ValueFrom(acc: nat, d: string): (v: nat)
    requires AllDigits(d)
    ensures v >= acc
    decreases |d|
  {
    if |d| == 0 then acc else ValueFrom(acc * 10 + DigitValue(d[0]), d[1..])
  }

  /** The value of a decimal numeral, leading zeros allowed. */
  function DecimalValue(d: string): nat
    requires AllDigits(d)
  {
    ValueFrom(0, d)
  }

  /** The digits that follow the optional single leading `+`. */
  function Unsigned(s: string): string
  {
    if |s| > 0 && s[0] == '+' then s[1..] else s
  }

  /** What `u8::from_str` accepts: an optional `+`, at least one digit, value at most 255. */
  predicate IsU8Literal(s: string)
  {
    var d := Unsigned(s);
    |d| > 0 && AllDigits(d) && DecimalValue(d) <= 255
  }

  /**
   * The digit loop of `u8::from_str_radix`: each step is a checked multiply by
   * 10 and a checked add of the digit, failing on a non-digit or on overflow.
   * It agrees with the unchecked value, cut off at 255.
   */
  function AccumulateDigits(d: string, acc: byte): (r: Option<byte>)
    ensures r.Some? <==> AllDigits(d) && ValueFrom(acc, d) <= 255
    ensures r.Some? ==> r.value == ValueFrom(acc, d)
  {
    if |d| == 0 then Some(acc)
    else if !IsDigit(d[0]) then None
    else
      var next := acc * 10 + DigitValue(d[0]);
      if next > 255 then
        assert AllDigits(d) ==> ValueFrom(acc, d) == ValueFrom(next, d[1..]);
        None
      else
        var r := AccumulateDigits(d[1..], next);
        assert AllDigits(d) <==> AllDigits(d[1..]) by {
          if AllDigits(d[1..]) {
            forall i | 0 <= i < |d| ensures IsDigit(d[i]) {
              if i > 0 { assert d[i] == d[1..][i - 1]; }
            }
          }
        }
        r
  }

  /** `u8::from_str`: accepts exactly the `u8` literals, with their decimal value. */
  function ParseU8(s: string): (r: Option<byte>)
    ensures r.Some? <==> IsU8Literal(s)
    ensures r.Some? ==> r.value == DecimalValue(Unsigned(s))
  {
    if |s| == 0 then None
    else if |s| == 1 && (s[0] == '+' || s[0] == '-') then None
    else AccumulateDigits(Unsigned(s), 0)
  }

  // ---------------------------------------------------------------------------
  // `read_key`
  // ---------------------------------------------------------------------------

  /** The closure of `read_key`: one field, trimmed and parsed as a `u8`. */
  function ParseField(f: string): (r: Option<byte>)
    ensures r.Some? <==> IsU8Literal(Trim(f))
    ensures r.Some? ==> r.value == DecimalValue(Unsigned(Trim(f)))
  {
    ParseU8(Trim(f))
  }

  /**
   * `collect::<Result<Vec<u8>, _>>()` over the parsed fields: all fields
   * parse and the bytes keep their order, or the whole collect fails.
   */
  function ParseFields(fields: seq<string>): (r: Option<seq<byte>>)
    ensures r.Some? <==> forall i :: 0 <= i < |fields| ==> ParseField(fields[i]).Some?
    ensures r.Some? ==> |r.value| == |fields|
    ensures r.Some? ==> forall i :: 0 <= i < |fields| ==> ParseField(fields[i]) == Some(r.value[i])
  {
    if |fields| == 0 then Some([])
    else
      match ParseField(fields[0])
      case None => None
      case Some(b) =>
        match ParseFields(fields[1..])
        case None => None
        case Some(rest) => Some([b] + rest)
  }

  /**
   * `read_key` on the text `raw` already read from the key file: every
   * comma-separated field must parse as a `u8`, and then there must be
   * exactly `length` of them.
   */
  function ReadKey(raw: string, length: nat): (r: Result<seq<byte>, KeyError>)
    ensures r.Success? <==>
              (forall i :: 0 <= i < |Split(raw)| ==> ParseField(Split(raw)[i]).Some?) && |Split(raw)| == length
    ensures r.Success? ==> |r.value| == length
    ensures r.Success? ==> forall i :: 0 <= i < length ==> ParseField(Split(raw)[i]) == Some(r.value[i])
    ensures r == Failure(InvalidByte) <==> exists i :: 0 <= i < |Split(raw)| && ParseField(Split(raw)[i]).None?
    ensures r.Failure? && r.error.InvalidLength? ==> r.error == InvalidLength(length, |Split(raw)|) && |Split(raw)| != length
  {
    match ParseFields(Split(raw))
    case None => Failure(InvalidByte)
    case Some(bytes) =>
      if |bytes| != length then Failure(InvalidLength(length, |bytes|)) else Success(bytes)
  }

  /** A key that parses has one byte more than the text has commas. */
  lemma ReadKeyCountsCommas(raw: string, length: nat)
    requires ReadKey(raw, length).Success?
    ensures length == Count(raw, ',') + 1
  {
    SplitFieldCount(raw);
  }

  /** No text parses as a key of length zero: `split` always yields a field. */
  lemma ReadKeyNeverEmpty(raw: string)
    ensures ReadKey(raw, 0).Failure?
  {
  }

  // ---------------------------------------------------------------------------
  // Round trip
  // ---------------------------------------------------------------------------

  /** The decimal numeral of `n` without leading zeros, as `u8`'s `Display` writes it. */
  function Decimal(n: nat): (s: string)
    ensures |s| >= 1 && AllDigits(s) && DecimalValue(s) == n
  {
    var last := ['0' + (n % 10) as char];
    if n < 10 then
      assert ValueFrom(0, last) == ValueFrom(DigitValue(last[0]), []);
      last
    else
      var init := Decimal(n / 10);
      ValueFromAppendDigit(0, init, last[0]);
      init + last
  }

  lemma {:induction false} ValueFromAppendDigit(acc: nat, d: string, c: char)
    requires AllDigits(d) && IsDigit(c)
    ensures AllDigits(d + [c])
    ensures ValueFrom(acc, d + [c]) == ValueFrom(acc, d) * 10 + DigitValue(c)
    decreases |d|
  {
    if |d| > 0 {
      assert (d + [c])[1..] == d[1..] + [c];
      ValueFromAppendDigit(acc * 10 + DigitValue(d[0]), d[1..], c);
    } else {
      assert d + [c] == [c];
    }
  }

  function Zeros(k: nat): (z: string)
    ensures |z| == k && AllDigits(z)
  {
    seq(k, _ => '0')
  }

  lemma {:induction false} ValueFromLeadingZeros(k: nat, d: string)
    requires AllDigits(d)
    ensures AllDigits(Zeros(k) + d) && ValueFrom(0, Zeros(k) + d) == ValueFrom(0, d)
  {
    if k > 0 {
      ValueFromLeadingZeros(k - 1, d);
      assert (Zeros(k) + d)[1..] == Zeros(k - 1) + d;
    } else {
      assert Zeros(k) + d == d;
    }
  }

  /** How a field of a key file may be written around its number. */
  datatype Padding = Padding(before: string, plus: bool, zeros: nat, after: string)

  predicate ValidPadding(p: Padding)
  {
    AllWhitespace(p.before) && AllWhitespace(p.after)
  }

  /** The number of a field: an optional `+`, leading zeros, the numeral. */
  function FieldNumber(b: byte, p: Padding): string
  {
    (if p.plus then "+" else "") + (Zeros(p.zeros) + Decimal(b))
  }

  /** One byte written as a field: whitespace, its number, whitespace. */
  function RenderField(b: byte, p: Padding): string
  {
    p.before + FieldNumber(b, p) + p.after
  }

  /** A key written as its padded fields joined with commas. */
  function RenderKey(bytes: seq<byte>, pads: seq<Padding>): string
    requires |bytes| >= 1 && |pads| == |bytes|
  {
    Join(seq(|bytes|, i requires 0 <= i < |bytes| => RenderField(bytes[i], pads[i])))
  }

  /** The number of a field starts with `+` or a digit, ends with a digit, and reads as its byte. */
  lemma FieldNumberShape(b: byte, p: Padding)
    ensures var core := FieldNumber(b, p);
      && |core| >= 1 && !IsWhitespace(core[0]) && !IsWhitespace(core[|core| - 1])
      && CommaFree(core)
      && IsU8Literal(core) && DecimalValue(Unsigned(core)) == b
  {
    var sign := if p.plus then "+" else "";
    var digits := Zeros(p.zeros) + Decimal(b);
    var core := sign + digits;
    ValueFromLeadingZeros(p.zeros, Decimal(b));
    UnsignedAfterSign(sign, digits);
    DigitsCommaFree(digits);
    CommaFreeConcat(sign, digits);
    assert core[|core| - 1] == digits[|digits| - 1];
  }

  lemma UnsignedAfterSign(sign: string, digits: string)
    requires sign == "" || sign == "+"
    requires |digits| >= 1 && AllDigits(digits)
    ensures Unsigned(sign + digits) == digits
  {
    if sign == "+" {
      assert (sign + digits)[1..] == digits;
    } else {
      assert sign + digits == digits;
    }
  }

  lemma DigitsCommaFree(s: string)
    requires AllDigits(s)
    ensures CommaFree(s)
  {
  }

  lemma CommaFreeConcat(a: string, b: string)
    requires CommaFree(a) && CommaFree(b)
    ensures CommaFree(a + b)
  {
    forall i | 0 <= i < |a + b| ensures (a + b)[i] != ',' {
      if i < |a| { assert (a + b)[i] == a[i]; } else { assert (a + b)[i] == b[i - |a|]; }
    }
  }

  lemma WhitespaceCommaFree(s: string)
    requires AllWhitespace(s)
    ensures CommaFree(s)
  {
  }

  /** A rendered field parses back to its byte. */
  lemma ParseRenderedField(b: byte, p: Padding)
    requires ValidPadding(p)
    ensures CommaFree(RenderField(b, p))
    ensures ParseField(RenderField(b, p)) == Some(b)
  {
    var core := FieldNumber(b, p);
    FieldNumberShape(b, p);
    TrimPadded(p.before, core, p.after);
    WhitespaceCommaFree(p.before);
    WhitespaceCommaFree(p.after);
    CommaFreeConcat(p.before, core);
    CommaFreeConcat(p.before + core, p.after);
  }

  /**
   * Round trip: any non-empty key, written as padded decimal fields joined by
   * commas, is read back by `read_key` as exactly those bytes.
   */
  lemma ReadKeyRoundTrip(bytes: seq<byte>, pads: seq<Padding>)
    requires |bytes| >= 1 && |pads| == |bytes|
    requires forall i :: 0 <= i < |pads| ==> ValidPadding(pads[i])
    ensures ReadKey(RenderKey(bytes, pads), |bytes|) == Success(bytes)
  {
    var fields := seq(|bytes|, i requires 0 <= i < |bytes| => RenderField(bytes[i], pads[i]));
    forall i | 0 <= i < |fields|
      ensures CommaFree(fields[i]) && ParseField(fields[i]) == Some(bytes[i])
    {
      ParseRenderedField(bytes[i], pads[i]);
    }
    SplitJoin(fields);
    var r := ReadKey(RenderKey(bytes, pads), |bytes|);
    assert r.Success?;
    assert r.value == bytes;
  }

  /** The plain rendering: no padding around any field. */
  function Unpadded(n: nat): (pads: seq<Padding>)
    ensures |pads| == n && forall i :: 0 <= i < n ==> ValidPadding(pads[i])
  {
    seq(n, _ => Padding("", false, 0, ""))
  }

  /** The plain rendering `b1,b2,...` of any non-empty key reads back as that key. */
  lemma ReadKeyPlainRoundTrip(bytes: seq<byte>)
    requires |bytes| >= 1
    ensures ReadKey(RenderKey(bytes, Unpadded(|bytes|)), |bytes|) == Success(bytes)
  {
    ReadKeyRoundTrip(bytes, Unpadded(|bytes|));
  }
}
