/** Strings on the bus: bytes outside ASCII and backslashes travel escaped (Hoho::escape and Hihi::unescape of
    dbus/DBusMessage.cc). */
module Dbus {

  newtype byte = x: int | 0 <= x < 256

  const BACKSLASH: byte := 92
  const LETTER_X: byte := 120

  /** MarshallingFailed stands for MarshallingException. */
  datatype Decoded = Text(bytes: seq<byte>) | MarshallingFailed

  /** isxdigit in the C locale. */
  predicate IsHex(b: byte) {
    48 <= b <= 57 || 97 <= b <= 102 || 65 <= b <= 70
  }

  function HexValue(b: byte): (v: byte)
    requires IsHex(b)
    ensures v < 16
  {
    if b <= 57 then b - 48 else if b >= 97 then b - 87 else b - 55
  }

  /** The lower-case digit of printf's %x. */
  function HexDigit(v: byte): (b: byte)
    requires v < 16
    ensures IsHex(b) && b < 128 && HexValue(b) == v
  {
    if v < 10 then v + 48 else v + 87
  }

  function EscapeByte(b: byte): seq<byte> {
    if b == BACKSLASH then [BACKSLASH, BACKSLASH]
    else if b > 127 then [BACKSLASH, LETTER_X, HexDigit(b / 16), HexDigit(b % 16)]
    else [b]
  }

  function Escape(s: seq<byte>): seq<byte> {
    if s == [] then [] else EscapeByte(s[0]) + Escape(s[1..])
  }

  function Prepend(b: byte, d: Decoded): Decoded {
    match d
    case Text(bytes) => Text([b] + bytes)
    case MarshallingFailed => d
  }

  /** One or two hexadecimal digits follow \x, as many as there are. */
  function Unescape(s: seq<byte>): Decoded {
    if s == [] then Text([])
    else if s[0] != BACKSLASH then Prepend(s[0], Unescape(s[1..]))
    else if |s| < 2 then MarshallingFailed
    else if s[1] == BACKSLASH then Prepend(BACKSLASH, Unescape(s[2..]))
    else if s[1] != LETTER_X || |s| < 3 || !IsHex(s[2]) then MarshallingFailed
    else if |s| > 3 && IsHex(s[3]) then Prepend(HexValue(s[2]) * 16 + HexValue(s[3]), Unescape(s[4..]))
    else Prepend(HexValue(s[2]), Unescape(s[3..]))
  }

  /** Ten digits, and six letters, small or capital. */
  lemma HexDigits(b: byte, v: byte)
    ensures IsHex(b) && HexValue(b) == v <==>
      || (v < 10 && b as int == '0' as int + v as int)
      || (10 <= v < 16 && b as int == 'a' as int + v as int - 10)
      || (10 <= v < 16 && b as int == 'A' as int + v as int - 10)
  {
  }

  /** What is sent for one byte: itself, a doubled backslash, or \x and two digits, the letters small. */
  lemma EscapedByte(b: byte)
    ensures b < 128 && b as char != '\\' ==> Escape([b]) == [b]
    ensures b as char == '\\' ==> Escape([b]) == [b, b]
    ensures b >= 128 ==> var e := Escape([b]);
      && |e| == 4 && e[0] as char == '\\' && e[1] as char == 'x' && Digit(e[2], b / 16) && Digit(e[3], b % 16)
  {
    assert [b][1..] == [];
  }

  predicate Digit(c: byte, v: byte) {
    c as int == (if v < 10 then '0' as int + v as int else 'a' as int + v as int - 10)
  }

  lemma {:induction false} EscapeSum(s: seq<byte>, t: seq<byte>)
    ensures Escape(s + t) == Escape(s) + Escape(t)
  {
    if s == [] {
      assert s + t == t;
    } else {
      assert (s + t)[1..] == s[1..] + t;
      EscapeSum(s[1..], t);
    }
  }

  /** A backslash that begins no escape: neither doubled, nor followed by x and a digit. */
  predicate BadAt(s: seq<byte>, k: nat) {
    && k < |s| && s[k] as char == '\\'
    && (k + 1 == |s| || (s[k + 1] as char != '\\'
                         && (s[k + 1] as char != 'x' || k + 2 == |s| || !IsHex(s[k + 2]))))
  }

  /** After \x stand two digits, or one if no other follows. */
  lemma DigitsDecoded(s: seq<byte>)
    requires |s| >= 3 && s[0] as char == '\\' && s[1] as char == 'x' && IsHex(s[2])
    ensures |s| > 3 && IsHex(s[3]) ==> Unescape(s) == Prepend(HexValue(s[2]) * 16 + HexValue(s[3]), Unescape(s[4..]))
    ensures |s| == 3 || !IsHex(s[3]) ==> Unescape(s) == Prepend(HexValue(s[2]), Unescape(s[3..]))
  {
  }

  /** The first n bytes of s stand for b, whatever is cut off behind them. */
  lemma UnitOf(s: seq<byte>) returns (n: nat, b: byte)
    requires s != []
    ensures n <= |s| && (n == 0 <==> BadAt(s, 0))
    ensures n == 0 ==> Unescape(s) == MarshallingFailed
    ensures n > 0 ==> forall k :: n <= k <= |s| ==> Unescape(s[..k]) == Prepend(b, Unescape(s[n..k]))
    ensures forall k :: 0 < k < n ==> Unescape(s[..k]) == MarshallingFailed || s[k] != BACKSLASH
  {
    n, b := 0, 0;
    if s[0] != BACKSLASH {
      n, b := 1, s[0];
    } else if |s| > 1 && s[1] == BACKSLASH {
      n, b := 2, BACKSLASH;
    } else if |s| > 2 && s[1] == LETTER_X && IsHex(s[2]) {
      n, b := 3, HexValue(s[2]);
      if |s| > 3 && IsHex(s[3]) {
        n, b := 4, HexValue(s[2]) * 16 + HexValue(s[3]);
      }
    }
    forall k | 0 < n <= k <= |s| ensures Unescape(s[..k]) == Prepend(b, Unescape(s[n..k])) {
      assert s[..k][n..] == s[n..k];
    }
  }

  /** Decoding fails exactly where, after something that can be decoded, there is a backslash that begins no escape. */
  lemma {:induction false} FailsIff(s: seq<byte>)
    ensures Unescape(s) == MarshallingFailed <==> exists k: nat :: BadAt(s, k) && Unescape(s[..k]).Text?
    decreases |s|
  {
    if s != [] {
      var n, b := UnitOf(s);
      assert s[..|s|] == s && s[n..|s|] == s[n..] && s[..0] == [];
      if n > 0 {
        FailsIff(s[n..]);
        if k': nat :| BadAt(s[n..], k') && Unescape(s[n..][..k']).Text? {
          assert s[n..][..k'] == s[n..n + k'] && BadAt(s, n + k');
          assert Unescape(s[..n + k']).Text?;
        }
        if k: nat :| BadAt(s, k) && Unescape(s[..k]).Text? {
          assert k >= n && s[n..k] == s[n..][..k - n] && BadAt(s[n..], k - n);
        }
      }
    }
  }

  lemma UnescapeOne(b: byte, rest: seq<byte>)
    ensures Unescape(EscapeByte(b) + rest) == Prepend(b, Unescape(rest))
  {
  }

  /** Every byte string survives, even where hexadecimal digits follow an escaped byte. */
  lemma {:induction false} RoundTrip(s: seq<byte>)
    ensures Unescape(Escape(s)) == Text(s)
  {
    if s != [] {
      UnescapeOne(s[0], Escape(s[1..]));
      RoundTrip(s[1..]);
      assert s == [s[0]] + s[1..];
    }
  }

  lemma EscapeInjective(s: seq<byte>, t: seq<byte>)
    requires Escape(s) == Escape(t)
    ensures s == t
  {
    RoundTrip(s);
    RoundTrip(t);
  }

  /** What is sent is plain ASCII, and contains a NUL only where the text does. */
  lemma {:induction false} EscapedIsAscii(s: seq<byte>)
    ensures forall b :: b in Escape(s) ==> b < 128
    ensures 0 in Escape(s) <==> 0 in s
  {
    if s != [] {
      EscapedIsAscii(s[1..]);
      assert s == [s[0]] + s[1..];
      forall b | b in EscapeByte(s[0]) ensures b < 128 && (b == 0 ==> s[0] == 0) {
      }
      if s[0] == 0 { assert EscapeByte(s[0])[0] == 0; }
    }
  }

  /** c_str: the bus sees a string up to its first NUL. */
  function CStr(s: seq<byte>): seq<byte> {
    if s == [] || s[0] == 0 then [] else [s[0]] + CStr(s[1..])
  }

  lemma CStrAppend(p: seq<byte>, s: seq<byte>)
    requires 0 !in p
    ensures CStr(p + s) == p + CStr(s)
  {
    if p == [] {
      assert p + s == s;
    } else {
      assert p[0] in p && (p + s)[1..] == p[1..] + s;
      CStrAppend(p[1..], s);
    }
  }

  lemma {:induction false} CStrEscape(s: seq<byte>)
    ensures CStr(Escape(s)) == Escape(CStr(s))
  {
    if s != [] {
      CStrEscape(s[1..]);
      if s[0] != 0 {
        assert 0 !in EscapeByte(s[0]);
        CStrAppend(EscapeByte(s[0]), Escape(s[1..]));
      } else {
        assert EscapeByte(s[0]) == [0];
      }
    }
  }

  lemma {:induction false} CStrWhole(s: seq<byte>)
    ensures CStr(s) == s <==> 0 !in s
  {
    if s != [] {
      CStrWhole(s[1..]);
      assert s == [s[0]] + s[1..];
    }
  }

  /** Over the bus a text arrives up to its first NUL; so it arrives whole if and only if it has none. */
  lemma OverTheBus(s: seq<byte>)
    ensures Unescape(CStr(Escape(s))) == Text(CStr(s))
    ensures Unescape(CStr(Escape(s))) == Text(s) <==> 0 !in s
  {
    CStrEscape(s);
    RoundTrip(CStr(s));
    CStrWhole(s);
  }

  lemma EscapeStep(s: seq<byte>, it: nat, out: seq<byte>)
    requires it < |s|
    ensures out + Escape(s[it..]) == out + EscapeByte(s[it]) + Escape(s[it + 1..])
  {
  }

  method EscapeString(s: seq<byte>) returns (out: seq<byte>)
    ensures out == Escape(s)
  {
    out := [];
    var it := 0;
    assert s[0..] == s;
    while it < |s|
      invariant 0 <= it <= |s|
      invariant Escape(s) == out + Escape(s[it..])
    {
      EscapeStep(s, it, out);
      ghost var was := out;
      if s[it] == BACKSLASH {
        out := out + [BACKSLASH, BACKSLASH];
      } else if s[it] > 127 {
        out := out + [BACKSLASH, LETTER_X, HexDigit(s[it] / 16), HexDigit(s[it] % 16)];
      } else {
        out := out + [s[it]];
      }
      assert out == was + EscapeByte(s[it]);
      it := it + 1;
    }
  }

  function PrependAll(bs: seq<byte>, d: Decoded): Decoded {
    match d
    case Text(bytes) => Text(bs + bytes)
    case MarshallingFailed => d
  }

  lemma PrependLast(bs: seq<byte>, b: byte, d: Decoded)
    ensures PrependAll(bs, Prepend(b, d)) == PrependAll(bs + [b], d)
  {
  }

  lemma Tail(s: seq<byte>, it: nat, taken: nat)
    requires it + taken <= |s|
    ensures s[it..][taken..] == s[it + taken..]
  {
  }

  /** How many bytes the next character takes, and what it stands for; 0 bytes for none. */
  method UnescapeNext(s: seq<byte>, it: nat) returns (taken: nat, b: byte)
    requires it < |s|
    ensures it + taken <= |s|
    ensures taken == 0 ==> Unescape(s[it..]) == MarshallingFailed
    ensures taken > 0 ==> Unescape(s[it..]) == Prepend(b, Unescape(s[it..][taken..]))
  {
    ghost var rest := s[it..];
    taken, b := 0, 0;
    if s[it] != BACKSLASH {
      taken, b := 1, s[it];
    } else if it + 1 < |s| {
      if s[it + 1] == BACKSLASH {
        taken, b := 2, BACKSLASH;
      } else if s[it + 1] == LETTER_X && it + 2 < |s| && IsHex(s[it + 2]) {
        if it + 3 < |s| && IsHex(s[it + 3]) {
          taken, b := 4, HexValue(s[it + 2]) * 16 + HexValue(s[it + 3]);
        } else {
          taken, b := 3, HexValue(s[it + 2]);
        }
      }
    }
    assert |rest| == |s| - it && rest[0] == s[it];
    assert |rest| > 1 ==> rest[1] == s[it + 1];
    assert |rest| > 2 ==> rest[2] == s[it + 2];
    assert |rest| > 3 ==> rest[3] == s[it + 3];
  }

  lemma DecodedMore(s: seq<byte>, it: nat, taken: nat, b: byte, out: seq<byte>)
    requires it + taken <= |s| && Unescape(s[it..]) == Prepend(b, Unescape(s[it..][taken..]))
    ensures PrependAll(out, Unescape(s[it..])) == PrependAll(out + [b], Unescape(s[it + taken..]))
  {
    Tail(s, it, taken);
    PrependLast(out, b, Unescape(s[it + taken..]));
  }

  method UnescapeString(s: seq<byte>) returns (r: Decoded)
    ensures r == Unescape(s)
  {
    var out := [];
    var it := 0;
    assert s[0..] == s;
    while it < |s|
      invariant 0 <= it <= |s|
      invariant Unescape(s) == PrependAll(out, Unescape(s[it..]))
    {
      var taken, b := UnescapeNext(s, it);
      if taken == 0 { return MarshallingFailed; }
      DecodedMore(s, it, taken, b, out);
      out, it := out + [b], it + taken;
    }
    return Text(out);
  }
}
