/** base64url without padding: section 5 of RFC 4648, unpadded as section 3.2 allows. */
module Base64 {
  import opened Bytes
  import opened Api

  // ----- the alphabet -----

  function SextetChar(v: nat): (c: Byte)
    requires v < 64
  {
    if v < 26 then ('A' as int + v) as char
    else if v < 52 then ('a' as int + (v - 26)) as char
    else if v < 62 then ('0' as int + (v - 52)) as char
    else if v == 62 then '-'
    else '_'
  }

  /** The value of a character of the alphabet; -1 for any other character. */
  function CharSextet(c: Byte): (v: int)
    ensures -1 <= v < 64
  {
    if 'A' <= c <= 'Z' then c as int - 'A' as int
    else if 'a' <= c <= 'z' then c as int - 'a' as int + 26
    else if '0' <= c <= '9' then c as int - '0' as int + 52
    else if c == '-' then 62
    else if c == '_' then 63
    else -1
  }

  predicate IsNewline(c: Byte) {
    c == '\r' || c == '\n'
  }

  // ----- encoding -----

  function Encode(s: Str): Str {
    if s == [] then []
    else
      var a := s[0] as int;
      if |s| == 1 then [SextetChar(a / 4), SextetChar(a % 4 * 16)]
      else
        var b := s[1] as int;
        if |s| == 2 then [SextetChar(a / 4), SextetChar(a % 4 * 16 + b / 16), SextetChar(b % 16 * 4)]
        else Quantum(a, b, s[2] as int) + Encode(s[3..])
  }

  function Quantum(a: nat, b: nat, c: nat): (q: Str)
    requires a < 256 && b < 256 && c < 256
    ensures |q| == 4
  {
    [SextetChar(a / 4), SextetChar(a % 4 * 16 + b / 16), SextetChar(b % 16 * 4 + c / 64), SextetChar(c % 64)]
  }

  // ----- decoding -----

  function StripNewlines(t: Str): Str {
    if t == [] then []
    else if IsNewline(t[0]) then StripNewlines(t[1..])
    else [t[0]] + StripNewlines(t[1..])
  }

  /** The lenient decoder: newlines are skipped and unused trailing bits are ignored. */
  function Decode(t: Str): Option<Str> {
    DecodeQuanta(StripNewlines(t))
  }

  function DecodeQuanta(t: Str): Option<Str> {
    if t == [] then Some([])
    else if |t| == 1 then None
    else
      var a, b := CharSextet(t[0]), CharSextet(t[1]);
      if a < 0 || b < 0 then None
      else
        var x: Byte := (a * 4 + b / 16) as char;
        if |t| == 2 then Some([x])
        else
          var c := CharSextet(t[2]);
          if c < 0 then None
          else
            var y: Byte := (b % 16 * 16 + c / 4) as char;
            if |t| == 3 then Some([x, y])
            else
              var d := CharSextet(t[3]);
              if d < 0 then None
              else
                var z: Byte := (c % 4 * 64 + d) as char;
                match DecodeQuanta(t[4..])
                case None => None
                case Some(rest) => Some([x, y, z] + rest)
  }

  // ----- round trip -----

  lemma SextetRoundTrip(v: nat)
    requires v < 64
    ensures CharSextet(SextetChar(v)) == v
    ensures !IsNewline(SextetChar(v))
  {
  }

  lemma {:induction false} EncodeHasNoNewlines(s: Str)
    ensures StripNewlines(Encode(s)) == Encode(s)
  {
    if |s| < 3 {
      NoNewlines(Encode(s));
    } else {
      EncodeHasNoNewlines(s[3..]);
      StripAppend(Quantum(s[0] as int, s[1] as int, s[2] as int), Encode(s[3..]));
      NoNewlines(Quantum(s[0] as int, s[1] as int, s[2] as int));
    }
  }

  lemma {:induction false} NoNewlines(t: Str)
    requires forall i :: 0 <= i < |t| ==> !IsNewline(t[i])
    ensures StripNewlines(t) == t
  {
    if t == [] {
    } else {
      NoNewlines(t[1..]);
      assert t == [t[0]] + t[1..];
    }
  }

  lemma {:induction false} StripAppend(t: Str, u: Str)
    ensures StripNewlines(t + u) == StripNewlines(t) + StripNewlines(u)
  {
    if t == [] {
      assert t + u == u;
    } else {
      assert (t + u)[1..] == t[1..] + u;
      StripAppend(t[1..], u);
    }
  }

  /** Reassembling the bytes of a quantum from its four sextets. */
  lemma SextetsHoldBytes(a: nat, b: nat, c: nat)
    requires a < 256 && b < 256 && c < 256
    ensures a / 4 < 64 && a % 4 * 16 + b / 16 < 64 && b % 16 * 4 + c / 64 < 64 && c % 64 < 64
    ensures a / 4 * 4 + (a % 4 * 16 + b / 16) / 16 == a
    ensures (a % 4 * 16 + b / 16) % 16 * 16 + (b % 16 * 4 + c / 64) / 4 == b
    ensures (b % 16 * 4 + c / 64) % 4 * 64 + c % 64 == c
  {
  }

  /** The first quantum of an encoding decodes to the first bytes. */
  lemma QuantumRoundTrip(a: Byte, b: Byte, c: Byte, rest: Str)
    requires DecodeQuanta(rest).Some?
    ensures DecodeQuanta(Quantum(a as int, b as int, c as int) + rest) == Some([a, b, c] + DecodeQuanta(rest).value)
  {
    var x, y, z := a as int, b as int, c as int;
    SextetsHoldBytes(x, y, z);
    SextetRoundTrip(x / 4);
    SextetRoundTrip(x % 4 * 16 + y / 16);
    SextetRoundTrip(y % 16 * 4 + z / 64);
    SextetRoundTrip(z % 64);
    var t := Quantum(x, y, z) + rest;
    assert t[4..] == rest;
    assert t[0] == SextetChar(x / 4) && t[1] == SextetChar(x % 4 * 16 + y / 16);
    assert t[2] == SextetChar(y % 16 * 4 + z / 64) && t[3] == SextetChar(z % 64);
  }

  /** A final group of one or two bytes decodes to those bytes. */
  lemma TailRoundTrip(a: Byte, b: Byte)
    ensures DecodeQuanta(Encode([a])) == Some([a])
    ensures DecodeQuanta(Encode([a, b])) == Some([a, b])
  {
    var x, y := a as int, b as int;
    SextetsHoldBytes(x, y, 0);
    SextetsHoldBytes(x, 0, 0);
    SextetRoundTrip(x / 4);
    SextetRoundTrip(x % 4 * 16);
    SextetRoundTrip(x % 4 * 16 + y / 16);
    SextetRoundTrip(y % 16 * 4);
    assert Encode([a]) == [SextetChar(x / 4), SextetChar(x % 4 * 16)];
    assert Encode([a, b]) == [SextetChar(x / 4), SextetChar(x % 4 * 16 + y / 16), SextetChar(y % 16 * 4)];
  }

  lemma {:induction false} DecodeEncode(s: Str)
    ensures DecodeQuanta(Encode(s)) == Some(s)
  {
    if s == [] {
    } else if |s| == 1 {
      assert s == [s[0]];
      TailRoundTrip(s[0], s[0]);
    } else if |s| == 2 {
      assert s == [s[0], s[1]];
      TailRoundTrip(s[0], s[1]);
    } else {
      DecodeEncode(s[3..]);
      QuantumRoundTrip(s[0], s[1], s[2], Encode(s[3..]));
      assert s == [s[0], s[1], s[2]] + s[3..];
    }
  }

  /** Decoding what was encoded gives the bytes back, for all three length residues. */
  lemma RoundTrip(s: Str)
    ensures Decode(Encode(s)) == Some(s)
    ensures s != [] ==> Encode(s) != []
  {
    EncodeHasNoNewlines(s);
    DecodeEncode(s);
  }

  // ----- the format -----

  /** The characters of Table 2 of RFC 4648, section 5. */
  predicate InAlphabet(c: Byte) {
    'A' <= c <= 'Z' || 'a' <= c <= 'z' || '0' <= c <= '9' || c == '-' || c == '_'
  }

  /** The table lists the capital letters, the small letters, the digits, the minus and the underline. */
  lemma AlphabetIsTheTable()
    ensures SextetChar(0) == 'A' && SextetChar(25) == 'Z' && SextetChar(26) == 'a' && SextetChar(51) == 'z'
    ensures SextetChar(52) == '0' && SextetChar(61) == '9' && SextetChar(62) == '-' && SextetChar(63) == '_'
    ensures forall v :: 0 <= v < 63 && v !in {25, 51, 61, 62} ==> SextetChar(v + 1) as int == SextetChar(v) as int + 1
    ensures forall c: Byte :: CharSextet(c) < 0 <==> !InAlphabet(c)
  {
  }

  /** Four characters hold the 24 bits of three bytes, most significant first. */
  lemma QuantumHoldsBits(a: nat, b: nat, c: nat)
    requires a < 256 && b < 256 && c < 256
    ensures var q := Quantum(a, b, c);
            CharSextet(q[0]) * 0x40000 + CharSextet(q[1]) * 0x1000 + CharSextet(q[2]) * 0x40 + CharSextet(q[3])
              == a * 0x10000 + b * 0x100 + c
  {
    SextetsHoldBytes(a, b, c);
    SextetRoundTrip(a / 4);
    SextetRoundTrip(a % 4 * 16 + b / 16);
    SextetRoundTrip(b % 16 * 4 + c / 64);
    SextetRoundTrip(c % 64);
  }

  /** An encoding is that of each three bytes in turn; one or two bytes at the end are encoded as if zero
      bits followed, and without padding. */
  lemma EncodesByQuanta(s: Str)
    ensures |Encode(s)| == (4 * |s| + 2) / 3
    ensures |s| >= 3 ==> Encode(s) == Quantum(s[0] as int, s[1] as int, s[2] as int) + Encode(s[3..])
    ensures |s| == 1 ==> Encode(s) == Quantum(s[0] as int, 0, 0)[..2]
    ensures |s| == 2 ==> Encode(s) == Quantum(s[0] as int, s[1] as int, 0)[..3]
  {
    if |s| >= 3 {
      EncodesByQuanta(s[3..]);
    }
  }

  lemma {:induction false} QuantaFail(t: Str)
    ensures DecodeQuanta(t).None? <==> |t| % 4 == 1 || exists i :: 0 <= i < |t| && CharSextet(t[i]) < 0
  {
    if |t| >= 4 {
      QuantaFail(t[4..]);
      assert forall i :: 4 <= i < |t| ==> t[i] == t[4..][i - 4];
    }
  }

  lemma {:induction false} StripMembers(t: Str)
    ensures forall c :: c in StripNewlines(t) <==> c in t && !IsNewline(c)
  {
    if t == [] {
    } else {
      StripMembers(t[1..]);
      assert t == [t[0]] + t[1..];
    }
  }

  /** Decoding fails exactly on a character that is neither in the alphabet nor a line break, or if one
      character is left over. */
  lemma DecodeFailsExactly(t: Str)
    ensures Decode(t).None? <==>
              |StripNewlines(t)| % 4 == 1 || exists c :: c in t && !InAlphabet(c) && c != '\r' && c != '\n'
  {
    var u := StripNewlines(t);
    QuantaFail(u);
    StripMembers(t);
    if i :| 0 <= i < |u| && CharSextet(u[i]) < 0 {
      assert u[i] in u && u[i] in t;
    }
    if c :| c in t && !InAlphabet(c) && c != '\r' && c != '\n' {
      assert c in u;
    }
  }
}
