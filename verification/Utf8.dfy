/** UTF-8 (section 3 of RFC 3629): what the readers' decoding of bytes means. Bytes are characters of
    one byte each. */
module Utf8 {
  import opened Wrappers
  import opened HttpBody
  import opened TailKeys

  /** The bytes of a character: seven bits in one, or six to each byte after the first. */
  function Bytes(c: char): (bytes: string)
    ensures 1 <= |bytes| <= 4
  {
    var n := c as int;
    if n < 0x80 then [c]
    else if n < 0x800 then [(0xC0 + n / 0x40) as char, Low(n)]
    else if n < 0x1_0000 then [(0xE0 + n / 0x1000) as char, Low(n / 0x40), Low(n)]
    else [(0xF0 + n / 0x4_0000) as char, Low(n / 0x1000), Low(n / 0x40), Low(n)]
  }

  /** A continuation byte with a number's low six bits. */
  function Low(n: int): char { (0x80 + n % 0x40) as char }

  function Encode(text: string): string {
    if text == "" then "" else Bytes(text[0]) + Encode(text[1..])
  }

  lemma SixBits(q: int, x: int)
    requires 0 <= x < 0x40
    ensures (q * 0x40 + x) / 0x40 == q && (q * 0x40 + x) % 0x40 == x
  {}

  /** A character's number from its bits: a lead and two or three groups of six. */
  lemma ThreeBytes(a: int, x: int, y: int)
    requires 0 <= x < 0x40 && 0 <= y < 0x40
    ensures var n := a * 0x1000 + x * 0x40 + y;
      n / 0x1000 == a && n / 0x40 % 0x40 == x && n % 0x40 == y
  {
    SixBits(a * 0x40 + x, y);
    SixBits(a, x);
  }

  lemma FourBytes(a: int, x: int, y: int, z: int)
    requires 0 <= x < 0x40 && 0 <= y < 0x40 && 0 <= z < 0x40
    ensures var n := a * 0x4_0000 + x * 0x1000 + y * 0x40 + z;
      n / 0x4_0000 == a && n / 0x1000 % 0x40 == x && n / 0x40 % 0x40 == y && n % 0x40 == z
  {
    SixBits((a * 0x40 + x) * 0x40 + y, z);
    SixBits(a * 0x40 + x, y);
    SixBits(a, x);
  }

  /** A character's bytes are read as that character, whatever follows. */
  lemma CharDecodes(c: char, rest: string)
    ensures Bytes(c) + rest != "" && FirstChar(Bytes(c) + rest) == Some((c, |Bytes(c)|))
  {
    var n, s := c as int, Bytes(c) + rest;
    forall i | 0 <= i < |Bytes(c)| ensures s[i] == Bytes(c)[i] {}
    if n < 0x80 {
    } else if n < 0x800 {
      TwoDecode(c, s);
    } else if n < 0x1_0000 {
      ThreeDecode(c, s);
    } else {
      FourDecode(c, s);
    }
  }

  lemma TwoDecode(c: char, s: string)
    requires 0x80 <= c as int < 0x800 && |s| >= 2
    requires s[0] as int == 0xC0 + c as int / 0x40 && s[1] == Low(c as int)
    ensures FirstChar(s) == Some((c, 2))
  {
    var n := c as int;
    assert n == n / 0x40 * 0x40 + n % 0x40;
  }

  lemma ThreeDecode(c: char, s: string)
    requires 0x800 <= c as int < 0x1_0000 && |s| >= 3
    requires s[0] as int == 0xE0 + c as int / 0x1000 && s[1] == Low(c as int / 0x40) && s[2] == Low(c as int)
    ensures FirstChar(s) == Some((c, 3))
  {
    hide FirstChar;
    var n := c as int;
    DividedTwice(n);
    ThreeValue(s, n / 0x1000, n / 0x40 % 0x40, n % 0x40, c);
  }

  lemma ThreeValue(s: string, a: int, x: int, y: int, c: char)
    requires |s| >= 3 && s[0] as int == 0xE0 + a && s[1] as int == 0x80 + x && s[2] as int == 0x80 + y
    requires 0 <= a && 0 <= x < 0x40 && 0 <= y < 0x40
    requires c as int == a * 0x1000 + x * 0x40 + y && 0x800 <= c as int < 0x1_0000
    ensures FirstChar(s) == Some((c, 3))
  {}

  lemma FourDecode(c: char, s: string)
    requires 0x1_0000 <= c as int && |s| >= 4
    requires s[0] as int == 0xF0 + c as int / 0x4_0000 && s[1] == Low(c as int / 0x1000)
    requires s[2] == Low(c as int / 0x40) && s[3] == Low(c as int)
    ensures FirstChar(s) == Some((c, 4))
  {
    hide FirstChar;
    var n := c as int;
    DividedTwice(n);
    FourValue(s, n / 0x4_0000, n / 0x1000 % 0x40, n / 0x40 % 0x40, n % 0x40, c);
  }

  lemma DividedTwice(n: nat)
    ensures n / 0x40 / 0x40 == n / 0x1000 && n / 0x1000 / 0x40 == n / 0x4_0000
  {}

  lemma FourValue(s: string, a: int, x: int, y: int, z: int, c: char)
    requires |s| >= 4 && s[0] as int == 0xF0 + a && s[1] as int == 0x80 + x
    requires s[2] as int == 0x80 + y && s[3] as int == 0x80 + z
    requires 0 <= a && 0 <= x < 0x40 && 0 <= y < 0x40 && 0 <= z < 0x40
    requires c as int == a * 0x4_0000 + x * 0x1000 + y * 0x40 + z && 0x1_0000 <= c as int
    ensures FirstChar(s) == Some((c, 4))
  {}

  /** And whatever is read as a character is its bytes: no longer form, no surrogate, nothing beyond
      the last character is. */
  lemma CharEncodes(s: string)
    requires s != "" && FirstChar(s).Some?
    ensures s[..FirstChar(s).value.1] == Bytes(FirstChar(s).value.0)
  {
    var b, n := s[0] as int, FirstChar(s).value.1;
    if n == 2 {
      SixBits(b - 0xC0, s[1] as int - 0x80);
    } else if n == 3 {
      ThreeEncodes(s);
    } else if n == 4 {
      FourEncodes(s);
    }
  }

  lemma ThreeEncodes(s: string)
    requires s != "" && FirstChar(s).Some? && FirstChar(s).value.1 == 3
    ensures s[..3] == Bytes(FirstChar(s).value.0)
  {
    ThreeBytes(s[0] as int - 0xE0, s[1] as int - 0x80, s[2] as int - 0x80);
  }

  lemma FourEncodes(s: string)
    requires s != "" && FirstChar(s).Some? && FirstChar(s).value.1 == 4
    ensures s[..4] == Bytes(FirstChar(s).value.0)
  {
    FourBytes(s[0] as int - 0xF0, s[1] as int - 0x80, s[2] as int - 0x80, s[3] as int - 0x80);
  }

  /** Bytes decode to a text exactly when they are its encoding. */
  lemma {:induction false} DecodeExactly(s: string, text: string)
    ensures Decode(s) == Some(text) <==> s == Encode(text)
    decreases |s| + |text|
  {
    hide FirstChar, Bytes;
    if s == "" {
    } else if text == "" {
    } else {
      CharDecodes(text[0], Encode(text[1..]));
      if FirstChar(s).Some? {
        CharEncodes(s);
        var (c, n) := FirstChar(s).value;
        DecodeExactly(s[n..], text[1..]);
        assert s == s[..n] + s[n..];
        assert text == [text[0]] + text[1..];
      }
    }
  }

  /** Bytes that are text are that text to the lossy reading too. */
  lemma {:induction false} LossyOfText(s: string)
    requires Decode(s).Some?
    ensures Lossy(s) == Decode(s).value
  {
    hide FirstChar;
    if s == "" {
    } else {
      LossyOfText(s[FirstChar(s).value.1..]);
    }
  }

  // ---------- bytes that are no text ----------

  /** Where no character begins, one replacement stands for as many bytes as could still begin one, or
      for a single byte: with another byte no character begins so. */
  lemma BadLengthIs(s: string)
    requires s != "" && FirstChar(s).None?
    ensures BadLength(s) > 1 ==> exists c :: s[..BadLength(s)] < Bytes(c)
    ensures BadLength(s) < |s| ==> forall c :: !(s[..BadLength(s) + 1] <= Bytes(c))
  {
    if BadLength(s) > 1 { var c := Completed(s); }
    if BadLength(s) < |s| {
      forall c ensures !(s[..BadLength(s) + 1] <= Bytes(c)) { NotLonger(s, c); }
    }
  }

  lemma Completed(s: string) returns (c: char)
    requires s != "" && FirstChar(s).None? && BadLength(s) > 1
    ensures s[..BadLength(s)] < Bytes(c)
  {
    var k := BadLength(s);
    var t := s[..k] + if k == 2 && s[0] as int >= 0xF0 then "\U{80}\U{80}" else "\U{80}";
    assert t[0] == s[0] && t[1] == s[1];
    assert FirstChar(t).Some? && FirstChar(t).value.1 == |t|;
    CharEncodes(t);
    c := FirstChar(t).value.0;
    assert t[..|t|] == t;
  }

  /** What begins a longer character, as far as it goes. */
  lemma LongerBegins(c: char)
    ensures |Bytes(c)| >= 3 ==> SecondFits(Bytes(c))
    ensures |Bytes(c)| == 4 ==> Bytes(c)[0] as int >= 0xF0 && Continuation(Bytes(c), 2, 0x80, 0xBF).Some?
  {
    CharDecodes(c, "");
    assert Bytes(c) + "" == Bytes(c);
    hide Bytes;
  }

  lemma NoneWhole(s: string, c: char)
    requires s != "" && FirstChar(s).None?
    ensures !(Bytes(c) <= s)
  {
    var rest := if |Bytes(c)| <= |s| then s[|Bytes(c)|..] else "";
    CharDecodes(c, rest);
    assert Bytes(c) <= s ==> s == Bytes(c) + rest;
  }

  lemma Agree(s: string, t: string, k: nat)
    requires k <= |s|
    ensures s[..k] <= t ==> k <= |t| && forall i :: 0 <= i < k ==> s[i] == t[i]
  {
    forall i | s[..k] <= t && 0 <= i < k ensures s[i] == t[i] { assert s[..k][i] == s[i]; }
  }

  lemma NotLonger(s: string, c: char)
    requires s != "" && FirstChar(s).None? && BadLength(s) < |s|
    ensures !(s[..BadLength(s) + 1] <= Bytes(c))
  {
    NoneWhole(s, c);
    LongerBegins(c);
    hide Bytes, FirstChar;
    Agree(s, Bytes(c), BadLength(s) + 1);
  }
}
