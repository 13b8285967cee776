/**
  Canonical base64url (`_decode_base64url`, in
  server/eidolon_admin_server/bootstrap/controller_auth.py and, with the same body,
  in bootstrap/commissioning_service.py).

  The library decoder is lenient: it accepts either alphabet's last two characters,
  skips characters outside the alphabet, and stops at sufficient padding.  The program
  makes it strict by re-encoding what came out and comparing.
 */
module Base64Url {
  import opened Outcomes
  import opened Bytes

  type sextet = v: int | 0 <= v < 64

  datatype DecodeError = Required | NotAscii | NotBase64Url | NotCanonical

  /** Table 2 of RFC 4648. */
  function Letter(v: sextet): (c: char)
    ensures c != '='
  {
    if v < 26 then (v + 'A' as int) as char
    else if v < 52 then (v - 26 + 'a' as int) as char
    else if v < 62 then (v - 52 + '0' as int) as char
    else if v == 62 then '-' else '_'
  }

  /** What the lenient decoder reads: both alphabets, nothing else. */
  function ValueOf(c: char): Option<sextet> {
    if 'A' <= c <= 'Z' then Some(c as int - 'A' as int)
    else if 'a' <= c <= 'z' then Some(c as int - 'a' as int + 26)
    else if '0' <= c <= '9' then Some(c as int - '0' as int + 52)
    else if c == '+' || c == '-' then Some(62)
    else if c == '/' || c == '_' then Some(63)
    else None
  }

  lemma LetterRoundTrip(v: sextet)
    ensures ValueOf(Letter(v)) == Some(v) && Letter(v) < 128 as char
  {
  }

  const UPPER := "ABCDEFGHI" + ("JKLMNOPQR" + "STUVWXYZ")
  const LOWER := "abcdefghi" + ("jklmnopqr" + "stuvwxyz")
  const DIGITS := "0123456789"

  /** n characters in code order. */
  function Ascending(first: char, n: nat): string
    requires first as int + n <= 128
  {
    if n == 0 then "" else Ascending(first, n - 1) + [(first as int + n - 1) as char]
  }

  lemma {:induction false} AscendingAt(first: char, n: nat, k: nat)
    requires first as int + n <= 128 && k < n
    ensures |Ascending(first, n)| == n && Ascending(first, n)[k] == (first as int + k) as char
  {
    if n > 1 {
      AscendingAt(first, n - 1, if k < n - 1 then k else 0);
    }
  }

  lemma {:induction false} AscendingSplits(first: char, m: nat, n: nat)
    requires first as int + m + n <= 128 && first as int + m < 128
    ensures Ascending(first, m + n) == Ascending(first, m) + Ascending((first as int + m) as char, n)
  {
    if n > 0 {
      AscendingSplits(first, m, n - 1);
    }
  }

  lemma UpperPieces()
    ensures Ascending('A', 9) == "ABCDEFGHI" && Ascending('J', 9) == "JKLMNOPQR" && Ascending('S', 8) == "STUVWXYZ"
  {
  }

  lemma UpperRun()
    ensures UPPER == Ascending('A', 26)
  {
    UpperPieces();
    AscendingSplits('A', 9, 17);
    AscendingSplits('J', 9, 8);
  }

  lemma LowerPieces()
    ensures Ascending('a', 9) == "abcdefghi" && Ascending('j', 9) == "jklmnopqr" && Ascending('s', 8) == "stuvwxyz"
  {
  }

  lemma LowerRun()
    ensures LOWER == Ascending('a', 26)
  {
    LowerPieces();
    AscendingSplits('a', 9, 17);
    AscendingSplits('j', 9, 8);
  }

  lemma DigitsRun()
    ensures DIGITS == Ascending('0', 10)
  {
  }

  /** The letters are the base64url alphabet, in its order. */
  lemma LetterIsInTheAlphabet(v: sextet)
    ensures |UPPER + LOWER + DIGITS + "-_"| == 64 && Letter(v) == (UPPER + LOWER + DIGITS + "-_")[v]
  {
    UpperRun();
    LowerRun();
    DigitsRun();
    if v < 26 {
      AscendingAt('A', 26, v);
    } else if v < 52 {
      AscendingAt('a', 26, v - 26);
    } else if v < 62 {
      AscendingAt('0', 10, v - 52);
    }
  }

  // ----- encoding -----

  function Group1(a: byte): string { [Letter(a / 4), Letter(a % 4 * 16)] }

  function Group2(a: byte, b: byte): string { [Letter(a / 4), Letter(a % 4 * 16 + b / 16), Letter(b % 16 * 4)] }

  function Group3(a: byte, b: byte, c: byte): string {
    [Letter(a / 4), Letter(a % 4 * 16 + b / 16), Letter(b % 16 * 4 + c / 64), Letter(c % 64)]
  }

  /** The unpadded encoding of section 5 of RFC 4648. */
  function Unpadded(data: seq<byte>): string {
    if data == [] then ""
    else if |data| == 1 then Group1(data[0])
    else if |data| == 2 then Group2(data[0], data[1])
    else Group3(data[0], data[1], data[2]) + Unpadded(data[3..])
  }

  function Padded(data: seq<byte>): string {
    if data == [] then ""
    else if |data| == 1 then Group1(data[0]) + "=="
    else if |data| == 2 then Group2(data[0], data[1]) + "="
    else Group3(data[0], data[1], data[2]) + Padded(data[3..])
  }

  function RStrip(s: string): string {
    if s != "" && s[|s| - 1] == '=' then RStrip(s[..|s| - 1]) else s
  }

  /** What the program compares against: the padded encoding with its padding stripped. */
  function Canonical(data: seq<byte>): string {
    RStrip(Padded(data))
  }

  /** A sequence of letters read as one number, most significant first. */
  function Number(s: string): nat {
    if s == "" then 0
    else Number(s[..|s| - 1]) * 64 + (match ValueOf(s[|s| - 1]) case Some(v) => v as nat case None => 0)
  }

  lemma NumberOf(s: string, v: sextet)
    ensures Number(s + [Letter(v)]) == Number(s) * 64 + v
  {
    LetterRoundTrip(v);
    assert (s + [Letter(v)])[..|s|] == s;
  }

  lemma NumberOfTwo(u: sextet, v: sextet)
    ensures Number([Letter(u), Letter(v)]) == u * 64 + v
  {
    NumberOf("", u);
    assert "" + [Letter(u)] == [Letter(u)];
    NumberOf([Letter(u)], v);
    assert [Letter(u)] + [Letter(v)] == [Letter(u), Letter(v)];
  }

  lemma NumberOfThree(t: sextet, u: sextet, v: sextet)
    ensures Number([Letter(t), Letter(u), Letter(v)]) == t * 4096 + u * 64 + v
  {
    NumberOfTwo(t, u);
    NumberOf([Letter(t), Letter(u)], v);
    assert [Letter(t), Letter(u)] + [Letter(v)] == [Letter(t), Letter(u), Letter(v)];
  }

  /** Section 4 of RFC 4648: three bytes and their four letters are the same 24-bit
      number, most significant first; a shorter final group is filled with zero bits. */
  lemma GroupsAreBigEndian(a: byte, b: byte, c: byte)
    ensures Number(Group3(a, b, c)) == a * 65536 + b * 256 + c
    ensures Number(Group2(a, b)) == (a * 256 + b) * 4
    ensures Number(Group1(a)) == a * 16
  {
    var s0, s1, s2, s3 := a / 4, a % 4 * 16 + b / 16, b % 16 * 4 + c / 64, c % 64;
    NumberOfThree(s0, s1, s2);
    NumberOf([Letter(s0), Letter(s1), Letter(s2)], s3);
    assert [Letter(s0), Letter(s1), Letter(s2)] + [Letter(s3)] == Group3(a, b, c);
    NumberOfThree(a / 4, a % 4 * 16 + b / 16, b % 16 * 4);
    NumberOfTwo(a / 4, a % 4 * 16);
    assert a == a / 4 * 4 + a % 4 && b == b / 16 * 16 + b % 16 && c == c / 64 * 64 + c % 64;
  }

  // ----- the lenient decoder -----

  /** One pass over the characters: position in the quantum, its pending bits, padding seen, output so far. */
  function Scan(s: string, quad: nat, left: nat, pads: nat, out: seq<byte>): Result<seq<byte>, DecodeError>
    requires quad < 4 && (quad == 1 ==> left < 64) && (quad == 2 ==> left < 16) && (quad == 3 ==> left < 4)
    decreases |s|
  {
    if s == "" then (if quad == 0 then Ok(out) else Err(NotBase64Url))
    else if s[0] == '=' then
      if quad >= 2 && quad + pads + 1 >= 4 then Ok(out)
      else Scan(s[1..], quad, left, if quad >= 2 then pads + 1 else pads, out)
    else
      match ValueOf(s[0])
      case None => Scan(s[1..], quad, left, pads, out)
      case Some(v) =>
        if quad == 0 then Scan(s[1..], 1, v, 0, out)
        else if quad == 1 then Scan(s[1..], 2, v % 16, 0, out + [left * 4 + v / 16])
        else if quad == 2 then Scan(s[1..], 3, v % 4, 0, out + [left * 16 + v / 4])
        else Scan(s[1..], 0, 0, 0, out + [left * 64 + v])
  }

  /** `"=" * (-len(value) % 4)`. */
  function Padding(n: nat): string {
    match n % 4
    case 0 => ""
    case 1 => "==="
    case 2 => "=="
    case _ => "="
  }

  predicate Ascii(s: string) {
    forall k :: 0 <= k < |s| ==> s[k] < 128 as char
  }

  function Decode(value: string): Result<seq<byte>, DecodeError> {
    if value == "" then Err(Required)
    else if !Ascii(value) then Err(NotAscii)
    else
      match Scan(value + Padding(|value|), 0, 0, 0, [])
      case Err(e) => Err(e)
      case Ok(decoded) => if Canonical(decoded) != value then Err(NotCanonical) else Ok(decoded)
  }

  // ----- the canonical form is the unpadded encoding -----

  lemma RStripAppend(s: string, t: string)
    requires t != "" && t[|t| - 1] != '='
    ensures RStrip(s + t) == s + t
  {
  }

  lemma {:induction false} RStripGroup(g: string, t: string)
    requires g != "" && g[|g| - 1] != '='
    ensures RStrip(g + t) == g + RStrip(t)
    decreases |t|
  {
    if t == "" {
      assert g + t == g;
    } else if t[|t| - 1] == '=' {
      RStripGroup(g, t[..|t| - 1]);
      assert (g + t)[..|g + t| - 1] == g + t[..|t| - 1];
    } else {
      RStripAppend(g, t);
    }
  }

  lemma {:induction false} CanonicalIsUnpadded(data: seq<byte>)
    ensures Canonical(data) == Unpadded(data)
  {
    if data == [] {
    } else if |data| == 1 {
      RStripGroup(Group1(data[0]), "==");
      assert "=="[..1] == "=" && "="[..0] == "";
    } else if |data| == 2 {
      RStripGroup(Group2(data[0], data[1]), "=");
      assert "="[..0] == "";
    } else {
      RStripGroup(Group3(data[0], data[1], data[2]), Padded(data[3..]));
      CanonicalIsUnpadded(data[3..]);
    }
  }

  // ----- the decoder reads every encoding back -----

  lemma ScanLetter(v: sextet, s: string, quad: nat, left: nat, pads: nat, out: seq<byte>)
    requires quad < 4 && (quad == 1 ==> left < 64) && (quad == 2 ==> left < 16) && (quad == 3 ==> left < 4)
    ensures Scan([Letter(v)] + s, quad, left, pads, out) ==
              if quad == 0 then Scan(s, 1, v, 0, out)
              else if quad == 1 then Scan(s, 2, v % 16, 0, out + [left * 4 + v / 16])
              else if quad == 2 then Scan(s, 3, v % 4, 0, out + [left * 16 + v / 4])
              else Scan(s, 0, 0, 0, out + [left * 64 + v])
  {
  }

  lemma ScanTwo(a: byte, second: sextet, s: string, out: seq<byte>)
    requires second / 16 == a % 4
    ensures Scan([Letter(a / 4), Letter(second)] + s, 0, 0, 0, out) == Scan(s, 2, second % 16, 0, out + [a])
  {
    assert [Letter(a / 4), Letter(second)] + s == [Letter(a / 4)] + ([Letter(second)] + s);
    ScanLetter(a / 4, [Letter(second)] + s, 0, 0, 0, out);
    ScanLetter(second, s, 1, a / 4, 0, out);
  }

  lemma ScanThree(a: byte, b: byte, third: sextet, s: string, out: seq<byte>)
    requires third / 4 == b % 16
    ensures Scan([Letter(a / 4), Letter(a % 4 * 16 + b / 16), Letter(third)] + s, 0, 0, 0, out) ==
              Scan(s, 3, third % 4, 0, out + [a, b])
  {
    var second := a % 4 * 16 + b / 16;
    assert [Letter(a / 4), Letter(second), Letter(third)] + s ==
      [Letter(a / 4), Letter(second)] + ([Letter(third)] + s);
    ScanTwo(a, second, [Letter(third)] + s, out);
    ScanLetter(third, s, 2, second % 16, 0, out + [a]);
    assert out + [a] + [b] == out + [a, b];
  }

  lemma ScanGroup(a: byte, b: byte, c: byte, s: string, out: seq<byte>)
    ensures Scan(Group3(a, b, c) + s, 0, 0, 0, out) == Scan(s, 0, 0, 0, out + [a, b, c])
  {
    var third, fourth := b % 16 * 4 + c / 64, c % 64;
    assert Group3(a, b, c) + s ==
      [Letter(a / 4), Letter(a % 4 * 16 + b / 16), Letter(third)] + ([Letter(fourth)] + s);
    ScanThree(a, b, third, [Letter(fourth)] + s, out);
    ScanLetter(fourth, s, 3, third % 4, 0, out + [a, b]);
    assert out + [a, b] + [c] == out + [a, b, c];
  }

  lemma {:induction false} UnpaddedIsAscii(data: seq<byte>)
    ensures Ascii(Unpadded(data))
  {
    forall v: sextet ensures Letter(v) < 128 as char { LetterRoundTrip(v); }
    if |data| >= 3 {
      UnpaddedIsAscii(data[3..]);
    }
  }

  lemma ScanOneByte(a: byte, out: seq<byte>)
    ensures Scan(Group1(a) + "==", 0, 0, 0, out) == Ok(out + [a])
  {
    ScanTwo(a, a % 4 * 16, "==", out);
    assert "=="[1..] == "=";
  }

  lemma ScanTwoBytes(a: byte, b: byte, out: seq<byte>)
    ensures Scan(Group2(a, b) + "=", 0, 0, 0, out) == Ok(out + [a, b])
  {
    ScanThree(a, b, b % 16 * 4, "=", out);
  }

  lemma {:induction false} PaddingCompletes(data: seq<byte>)
    ensures Unpadded(data) + Padding(|Unpadded(data)|) == Padded(data)
    decreases |data|
  {
    if |data| >= 3 {
      var group, rest := Group3(data[0], data[1], data[2]), Unpadded(data[3..]);
      PaddingCompletes(data[3..]);
      assert Unpadded(data) == group + rest && |group| == 4;
      assert (4 + |rest|) % 4 == |rest| % 4;
      assert Padding(|group + rest|) == Padding(|rest|);
      assert (group + rest) + Padding(|rest|) == group + (rest + Padding(|rest|));
    } else if |data| == 2 {
      assert |Unpadded(data)| == 3;
    } else if |data| == 1 {
      assert |Unpadded(data)| == 2;
    }
  }

  lemma {:induction false} ScanReadsBack(data: seq<byte>, out: seq<byte>)
    ensures Scan(Padded(data), 0, 0, 0, out) == Ok(out + data)
    decreases |data|
  {
    if data == [] {
      assert out + data == out;
    } else if |data| == 1 {
      ScanOneByte(data[0], out);
      assert data == [data[0]];
    } else if |data| == 2 {
      ScanTwoBytes(data[0], data[1], out);
      assert data == [data[0], data[1]];
    } else {
      ScanGroup(data[0], data[1], data[2], Padded(data[3..]), out);
      ScanReadsBack(data[3..], out + [data[0], data[1], data[2]]);
      assert out + [data[0], data[1], data[2]] + data[3..] == out + data;
    }
  }

  // ----- exactly the canonical strings -----

  /** The lenient decode and the re-encode check together accept a string with a
      result exactly when the string is the unpadded encoding of that result and the
      result is not empty. */
  lemma AcceptsExactlyTheCanonical(value: string, data: seq<byte>)
    ensures Decode(value) == Ok(data) <==> data != [] && value == Unpadded(data)
  {
    CanonicalIsUnpadded(data);
    assert data != [] ==> Unpadded(data) != "";
    if data != [] && value == Unpadded(data) {
      UnpaddedIsAscii(data);
      PaddingCompletes(data);
      ScanReadsBack(data, []);
      assert [] + data == data;
    }
  }

  /** Which refusal: nothing given, or something outside ASCII, or neither. */
  lemma RefusedAs(value: string)
    ensures Decode(value) == Err(Required) <==> value == ""
    ensures Decode(value) == Err(NotAscii) <==> value != "" && !Ascii(value)
  {
    if value != "" && Ascii(value) {
      ScanNeverSays(value + Padding(|value|), 0, 0, 0, []);
    }
  }

  lemma {:induction false} ScanNeverSays(s: string, quad: nat, left: nat, pads: nat, out: seq<byte>)
    requires quad < 4 && (quad == 1 ==> left < 64) && (quad == 2 ==> left < 16) && (quad == 3 ==> left < 4)
    ensures Scan(s, quad, left, pads, out).Err? ==> Scan(s, quad, left, pads, out).error == NotBase64Url
    decreases |s|
  {
    if s != "" {
      if s[0] == '=' {
        if !(quad >= 2 && quad + pads + 1 >= 4) {
          ScanNeverSays(s[1..], quad, left, if quad >= 2 then pads + 1 else pads, out);
        }
      } else {
        match ValueOf(s[0])
        case None => ScanNeverSays(s[1..], quad, left, pads, out);
        case Some(v) =>
          if quad == 0 {
            ScanNeverSays(s[1..], 1, v, 0, out);
          } else if quad == 1 {
            ScanNeverSays(s[1..], 2, v % 16, 0, out + [left * 4 + v / 16]);
          } else if quad == 2 {
            ScanNeverSays(s[1..], 3, v % 4, 0, out + [left * 16 + v / 4]);
          } else {
            ScanNeverSays(s[1..], 0, 0, 0, out + [left * 64 + v]);
          }
      }
    }
  }

  /** So accepted strings and non-empty byte strings are in bijection. */
  lemma DecodingIsABijection(v1: string, v2: string, data: seq<byte>)
    ensures data != [] ==> Decode(Unpadded(data)) == Ok(data)
    ensures Decode(v1).Ok? && Decode(v1) == Decode(v2) ==> v1 == v2
  {
    AcceptsExactlyTheCanonical(Unpadded(data), data);
    if Decode(v1).Ok? && Decode(v1) == Decode(v2) {
      AcceptsExactlyTheCanonical(v1, Decode(v1).value);
      AcceptsExactlyTheCanonical(v2, Decode(v1).value);
    }
  }
}
