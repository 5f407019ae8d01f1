/** The keys read from a response's tail: the last `"key":` of the tail's text and the number after
    it, for every way the body was cut into writes. */
module TailKeys {
  import opened Wrappers
  import opened Integers
  import opened HttpBody

  // ---------- keys read from the tail ----------

  predicate OccursAt(hay: string, needle: string, i: nat) {
    i + |needle| <= |hay| && hay[i..i + |needle|] == needle
  }

  /** The last occurrence that starts below `upto`. */
  function LastBelow(hay: string, needle: string, upto: nat): (r: Option<nat>)
    ensures r.Some? ==>
        r.value < upto && OccursAt(hay, needle, r.value) && forall i :: r.value < i < upto ==> !OccursAt(hay, needle, i)
    ensures r.None? ==> forall i :: 0 <= i < upto ==> !OccursAt(hay, needle, i)
  {
    if upto == 0 then None
    else if OccursAt(hay, needle, upto - 1) then Some(upto - 1)
    else LastBelow(hay, needle, upto - 1)
  }

  function RFind(hay: string, needle: string): Option<nat> { LastBelow(hay, needle, |hay| + 1) }

  function DigitsOf(s: string): (digits: string)
    ensures forall i :: 0 <= i < |digits| ==> '0' <= digits[i] <= '9'
  {
    if s != "" && '0' <= s[0] <= '9' then [s[0]] + DigitsOf(s[1..]) else ""
  }

  function DecimalValue(s: string): nat
    requires forall i :: 0 <= i < |s| ==> '0' <= s[i] <= '9'
  {
    if s == "" then 0 else 10 * DecimalValue(s[..|s| - 1]) + (s[|s| - 1] - '0') as nat
  }

  function Needle(key: string): string { "\"" + key + "\":" }

  /** The number at the head of `s`, spaces skipped, where it fits a machine word. */
  function NumberAt(s: string): Option<nat> {
    var digits := DigitsOf(TrimStart(s));
    if digits != "" && DecimalValue(digits) <= U64_MAX then Some(DecimalValue(digits)) else None
  }

  /** The number after the last `"key":` in a text. */
  function NumberIn(text: string, key: string): Option<nat> {
    match RFind(text, Needle(key))
    case None => None
    case Some(i) => NumberAt(text[i + |Needle(key)|..])
  }

  // ---------- the tail as text ----------

  /** What stands for bytes that are no character. */
  const REPLACEMENT: char := '\U{FFFD}'

  /** A valid second byte of a longer character. */
  predicate SecondFits(s: string)
    requires s != ""
  {
    var b := s[0] as int;
    if 0xE0 <= b <= 0xEF then
      Continuation(s, 1, if b == 0xE0 then 0xA0 else 0x80, if b == 0xED then 0x9F else 0xBF).Some?
    else
      0xF0 <= b <= 0xF4 && Continuation(s, 1, if b == 0xF0 then 0x90 else 0x80, if b == 0xF4 then 0x8F else 0xBF).Some?
  }

  /** How many bytes one replacement stands for: the start of a character, as far as it goes. */
  function BadLength(s: string): (n: nat)
    requires s != ""
    ensures 1 <= n <= |s|
  {
    if !SecondFits(s) then 1
    else if s[0] as int >= 0xF0 && Continuation(s, 2, 0x80, 0xBF).Some? then 3
    else 2
  }

  function NextChar(s: string): (r: (char, nat))
    requires s != ""
    ensures 1 <= r.1 <= |s|
  {
    match FirstChar(s) case Some(next) => next case None => (REPLACEMENT, BadLength(s))
  }

  /** The text of bytes, whatever they are. */
  function Lossy(s: string): string {
    if s == "" then "" else var (c, n) := NextChar(s); [c] + Lossy(s[n..])
  }

  function TailNumber(tail: string, key: string): Option<nat> { NumberIn(Lossy(tail), key) }

  lemma ContinuationAt(a: string, b: string, i: nat, lo: int, hi: int)
    requires b == "" || b[0] as int < 0x80
    ensures i < |a| ==> Continuation(a + b, i, lo, hi) == Continuation(a, i, lo, hi)
    ensures i == |a| ==> Continuation(a + b, i, lo, hi) == None
    ensures i >= |a| ==> Continuation(a, i, lo, hi) == None
  {}

  /** A character, whole or not, ends where an ASCII byte begins. */
  lemma NextEnds(a: string, b: string)
    requires a != "" && (b == "" || b[0] as int < 0x80)
    ensures NextChar(a + b) == NextChar(a)
  {
    var s := a + b;
    assert s[0] == a[0];
    forall i: nat, lo, hi
      ensures i < |a| ==> Continuation(s, i, lo, hi) == Continuation(a, i, lo, hi)
      ensures i == |a| ==> Continuation(s, i, lo, hi) == None
      ensures i >= |a| ==> Continuation(a, i, lo, hi) == None
    {
      ContinuationAt(a, b, i, lo, hi);
    }
    hide Continuation;
  }

  lemma {:induction false} LossySplit(a: string, b: string)
    requires b == "" || b[0] as int < 0x80
    ensures Lossy(a + b) == Lossy(a) + Lossy(b)
  {
    if a == "" {
      assert a + b == b;
    } else {
      NextEnds(a, b);
      hide NextChar;
      var (c, n) := NextChar(a);
      assert (a + b)[n..] == a[n..] + b;
      LossySplit(a[n..], b);
    }
  }

  lemma {:induction false} LossyAscii(a: string)
    requires Ascii(a)
    ensures Lossy(a) == a
  {
    if a == "" {
    } else {
      assert a[0] as int < 0x80;
      hide FirstChar;
      LossyAscii(a[1..]);
      assert a == [a[0]] + a[1..];
    }
  }

  /** Only an ASCII byte gives an ASCII character. */
  lemma AsciiChar(s: string)
    requires s != "" && NextChar(s).0 as int < 0x80
    ensures NextChar(s) == (s[0], 1)
  {}

  /** ASCII text is at the head of a text only where its bytes are at the head of the bytes. */
  lemma {:induction false} HeadOccurs(s: string, needle: string)
    requires Ascii(needle) && OccursAt(Lossy(s), needle, 0)
    ensures OccursAt(s, needle, 0)
  {
    if needle == "" {
    } else {
      assert Lossy(s)[0] == needle[0] as char;
      AsciiChar(s);
      hide NextChar;
      assert Lossy(s) == [s[0]] + Lossy(s[1..]);
      assert Lossy(s)[..|needle|][1..] == Lossy(s[1..])[..|needle| - 1];
      assert OccursAt(Lossy(s[1..]), needle[1..], 0);
      HeadOccurs(s[1..], needle[1..]);
      assert s[..|needle|] == [s[0]] + s[1..][..|needle| - 1];
    }
  }

  lemma OccursPast(c: char, rest: string, needle: string, j: nat)
    requires j > 0 && OccursAt([c] + rest, needle, j)
    ensures OccursAt(rest, needle, j - 1) && ([c] + rest)[j..] == rest[j - 1..]
  {
    assert ([c] + rest)[j..j + |needle|] == rest[j - 1..j - 1 + |needle|];
  }

  lemma OccursDeeper(s: string, n: nat, k: nat, needle: string)
    requires n <= |s| && OccursAt(s[n..], needle, k)
    ensures OccursAt(s, needle, n + k) && s[n..][k..] == s[n + k..]
  {
    assert s[n + k..n + k + |needle|] == s[n..][k..k + |needle|];
  }

  /** Wherever ASCII text occurs in the text, its bytes occur in the bytes, with the same text on. */
  lemma {:induction false} TextOccurs(s: string, needle: string, j: nat) returns (i: nat)
    requires Ascii(needle) && needle != "" && OccursAt(Lossy(s), needle, j)
    ensures OccursAt(s, needle, i) && Lossy(s)[j..] == Lossy(s[i..])
  {
    hide NextChar, OccursAt, Ascii, Lossy;
    if j == 0 {
      HeadOccurs(s, needle);
      i := 0;
    } else {
      NoneInEmpty(needle, j);
      LossyStep(s);
      var (c, n) := NextChar(s);
      OccursPast(c, Lossy(s[n..]), needle, j);
      var k := TextOccurs(s[n..], needle, j - 1);
      OccursDeeper(s, n, k, needle);
      i := n + k;
    }
  }

  lemma NoneInEmpty(needle: string, j: nat)
    requires needle != ""
    ensures !OccursAt(Lossy(""), needle, j)
  {}

  lemma LossyStep(s: string)
    ensures s != "" ==> Lossy(s) == [NextChar(s).0] + Lossy(s[NextChar(s).1..])
  {
    hide NextChar;
  }

  lemma OccursSplit(s: string, needle: string, i: nat)
    requires OccursAt(s, needle, i)
    ensures var rest := s[i + |needle|..]; s == s[..i] + (needle + rest) && s[i..] == needle + rest
  {}

  lemma JoinedOccurs(head: string, needle: string, rest: string)
    ensures var s, j := head + (needle + rest), |head|;
      OccursAt(s, needle, j) && s[j..] == needle + rest && s[j + |needle|..] == rest
  {
    var s, j := head + (needle + rest), |head|;
    assert s[j..j + |needle|] == needle;
  }

  /** The text around an occurrence in the bytes. */
  lemma BytesOccur(s: string, needle: string, i: nat) returns (j: nat)
    requires Ascii(needle) && needle != "" && OccursAt(s, needle, i)
    ensures OccursAt(Lossy(s), needle, j)
    ensures Lossy(s)[j..] == Lossy(s[i..]) && Lossy(s)[j + |needle|..] == Lossy(s[i + |needle|..])
  {
    var head, rest := s[..i], s[i + |needle|..];
    OccursSplit(s, needle, i);
    assert (needle + rest)[0] == needle[0];
    hide Lossy;
    LossySplit(head, needle + rest);
    LossyPrefix(needle, rest);
    j := |Lossy(head)|;
    JoinedOccurs(Lossy(head), needle, Lossy(rest));
  }

  lemma {:induction false} LossyPrefix(a: string, b: string)
    requires Ascii(a)
    ensures Lossy(a + b) == a + Lossy(b)
  {
    if a == "" {
      assert a + b == b;
    } else {
      assert (a + b)[0] == a[0] && a[0] as int < 0x80;
      hide FirstChar;
      assert (a + b)[1..] == a[1..] + b;
      LossyPrefix(a[1..], b);
    }
  }

  /** Texts of suffixes that begin with ASCII bytes: the longer suffix has the longer text. */
  lemma LaterIsShorter(s: string, i: nat, k: nat)
    requires i <= k < |s| && s[k] as int < 0x80
    ensures |Lossy(s[k..])| <= |Lossy(s[i..])|
  {
    assert s[i..] == s[i..k] + s[k..];
    LossySplit(s[i..k], s[k..]);
  }

  /** The last occurrence in the bytes and in their text: the same text follows. */
  ghost predicate FoundAlike(s: string, text: string, needle: string) {
    match (RFind(s, needle), RFind(text, needle))
    case (None, None) => true
    case (Some(i), Some(j)) => i + |needle| <= |s| && j + |needle| <= |text|
      && text[j + |needle|..] == Lossy(s[i + |needle|..])
    case _ => false
  }

  /** An ASCII needle found last in the bytes is found last in the text. */
  lemma TextFinds(s: string, needle: string)
    requires Ascii(needle) && needle != ""
    ensures FoundAlike(s, Lossy(s), needle)
  {
    hide Lossy, LastBelow;
    var text := Lossy(s);
    var found := RFind(text, needle);
    match RFind(s, needle)
    case None =>
      if found.Some? { var i := TextOccurs(s, needle, found.value); }
    case Some(i) =>
      var j := BytesOccur(s, needle, i);
      assert found.Some? && found.value >= j;
      var k := TextOccurs(s, needle, found.value);
      assert k <= i;
      assert s[i] == needle[0];
      LaterIsShorter(s, k, i);
      assert found.value == j;
  }

  /** The number the text gives is found from the bytes: where the key last occurs in them, at the
      head of the text that follows. */
  lemma NumberFromBytes(s: string, key: string)
    requires Ascii(key)
    ensures TailNumber(s, key) == NumberAfter(s, Needle(key))
  {
    assert Ascii(Needle(key));
    hide RFind, Lossy, NumberAt, Needle, FoundAlike;
    TextFinds(s, Needle(key));
    NumberAlike(s, Lossy(s), key);
  }

  lemma NumberAlike(s: string, text: string, key: string)
    requires FoundAlike(s, text, Needle(key))
    ensures NumberIn(text, key) == NumberAfter(s, Needle(key))
  {
    hide RFind, Lossy, NumberAt, Needle;
  }

  function NumberAfter(s: string, needle: string): Option<nat> {
    match RFind(s, needle)
    case None => None
    case Some(i) => if i + |needle| <= |s| then NumberAt(Lossy(s[i + |needle|..])) else None
  }

  // ---------- which number is read ----------

  predicate IsDigit(c: char) { '0' <= c <= '9' }

  predicate AllDigits(s: string) { forall i :: 0 <= i < |s| ==> IsDigit(s[i]) }

  predicate AllSpace(s: string) { forall i :: 0 <= i < |s| ==> IsSpace(s[i]) }

  /** A number's decimal spelling, without leading zeros. */
  function DecimalOf(n: nat): string {
    if n < 10 then [Digit(n)] else DecimalOf(n / 10) + [Digit(n % 10)]
  }

  lemma {:induction false} DecimalOfValue(n: nat)
    ensures AllDigits(DecimalOf(n)) && DecimalOf(n) != "" && DecimalValue(DecimalOf(n)) == n
  {
    if n < 10 {
      assert DecimalOf(n)[..0] == "";
    } else {
      DecimalOfValue(n / 10);
      assert DecimalOf(n)[..|DecimalOf(n)| - 1] == DecimalOf(n / 10);
    }
  }

  lemma {:induction false} ZerosBefore(k: nat, s: string)
    requires AllDigits(s)
    ensures AllDigits(Zeros(k) + s) && DecimalValue(Zeros(k) + s) == DecimalValue(s)
    decreases |s|, k
  {
    var z := Zeros(k) + s;
    if s == "" {
      assert z == Zeros(k);
      if k > 0 {
        ZerosBefore(k - 1, "");
        assert z[..|z| - 1] == Zeros(k - 1) + "";
      }
    } else {
      ZerosBefore(k, s[..|s| - 1]);
      assert z[..|z| - 1] == Zeros(k) + s[..|s| - 1];
    }
  }

  lemma {:induction false} TrimBlanks(blanks: string, rest: string)
    requires AllSpace(blanks) && (rest == "" || !IsSpace(rest[0]))
    ensures TrimStart(blanks + rest) == rest
  {
    if blanks == "" {
      assert blanks + rest == rest;
    } else {
      assert (blanks + rest)[1..] == blanks[1..] + rest;
      TrimBlanks(blanks[1..], rest);
    }
  }

  lemma {:induction false} DigitsThen(digits: string, rest: string)
    requires AllDigits(digits) && (rest == "" || !IsDigit(rest[0]))
    ensures DigitsOf(digits + rest) == digits
  {
    if digits == "" {
      assert digits + rest == rest;
    } else {
      assert (digits + rest)[1..] == digits[1..] + rest;
      DigitsThen(digits[1..], rest);
    }
  }

  /** A text is blanks, then digits as far as they go, then the rest. */
  predicate Parts(blanks: string, digits: string, rest: string) {
    && AllSpace(blanks) && AllDigits(digits)
    && (rest == "" || !IsDigit(rest[0])) && (digits == "" ==> rest == "" || !IsSpace(rest[0]))
  }

  lemma NumberOfParts(blanks: string, digits: string, rest: string)
    requires Parts(blanks, digits, rest)
    ensures NumberAt(blanks + (digits + rest))
         == if digits == "" || DecimalValue(digits) > U64_MAX then None else Some(DecimalValue(digits))
  {
    if digits == "" { assert digits + rest == rest; }
    TrimBlanks(blanks, digits + rest);
    DigitsThen(digits, rest);
  }

  /** The number a tail gives, whatever its bytes: none where no digit follows the key's last
      occurrence and blanks, or where the digits leave 64 bits; otherwise what the digits say. */
  lemma TailNumberIs(s: string, key: string, at: nat, blanks: string, digits: string, rest: string)
    requires Ascii(key) && OccursAt(s, Needle(key), at)
    requires forall i: nat :: i > at ==> !OccursAt(s, Needle(key), i)
    requires Lossy(s[at + |Needle(key)|..]) == blanks + (digits + rest) && Parts(blanks, digits, rest)
    ensures TailNumber(s, key)
         == if digits == "" || DecimalValue(digits) > U64_MAX then None else Some(DecimalValue(digits))
  {
    hide *;
    LastFound(s, Needle(key), at);
    NumberFromBytes(s, key);
    NumberOfParts(blanks, digits, rest);
    NumberAfterIs(s, Needle(key), at, blanks + (digits + rest));
  }

  lemma NumberAfterIs(s: string, needle: string, at: nat, text: string)
    requires RFind(s, needle) == Some(at) && at + |needle| <= |s| && Lossy(s[at + |needle|..]) == text
    ensures NumberAfter(s, needle) == NumberAt(text)
  {
    hide RFind, Lossy, NumberAt;
  }

  lemma LastFound(s: string, needle: string, at: nat)
    requires OccursAt(s, needle, at) && forall i: nat :: i > at ==> !OccursAt(s, needle, i)
    ensures RFind(s, needle) == Some(at) && at + |needle| <= |s|
  {}

  lemma DigitHead(rest: string)
    ensures Lossy(rest) != "" && IsDigit(Lossy(rest)[0]) ==> rest != "" && IsDigit(rest[0])
  {
    if rest != "" {
      hide NextChar;
      var c := NextChar(rest).0;
      if IsDigit(c) { AsciiChar(rest); }
    }
  }

  /** A key followed by blanks and a number's decimal spelling, leading zeros or not, is read as that
      number, or as none where it leaves 64 bits, whatever surrounds them and is not text. */
  lemma SpelledNumberRead(head: string, key: string, blanks: string, zeros: nat, n: nat, rest: string)
    requires Ascii(key) && AllSpace(Lossy(blanks)) && (rest == "" || !IsDigit(rest[0]))
    requires LastKey(head, "\"" + key + "\":", blanks + (Zeros(zeros) + DecimalOf(n) + rest))
    ensures TailNumber(head + ("\"" + key + "\":" + (blanks + (Zeros(zeros) + DecimalOf(n) + rest))), key)
         == if n <= U64_MAX then Some(n) else None
  {
    var digits := Zeros(zeros) + DecimalOf(n);
    DecimalOfValue(n);
    ZerosBefore(zeros, DecimalOf(n));
    NeedleIs(key);
    assert digits != "" by { hide Zeros; }
    hide *;
    SpelledText(blanks, digits, rest);
    DigitsRead(head, key, blanks + (digits + rest), Lossy(blanks), digits, Lossy(rest));
  }

  lemma NeedleIs(key: string)
    ensures Needle(key) == "\"" + key + "\":" && (Ascii(key) ==> Ascii(Needle(key)))
  {}

  /** `needle` does not occur after its place between `head` and `after`. */
  ghost predicate LastKey(head: string, needle: string, after: string) {
    forall i: nat :: i > |head| ==> !OccursAt(head + (needle + after), needle, i)
  }

  lemma DigitsRead(head: string, key: string, after: string, blanks: string, digits: string, rest: string)
    requires Ascii(key) && LastKey(head, Needle(key), after)
    requires Lossy(after) == blanks + (digits + rest) && Parts(blanks, digits, rest)
    ensures TailNumber(head + (Needle(key) + after), key)
         == if digits == "" || DecimalValue(digits) > U64_MAX then None else Some(DecimalValue(digits))
  {
    hide Lossy, OccursAt, Needle, TailNumber, Parts, DecimalValue;
    JoinedOccurs(head, Needle(key), after);
    TailNumberIs(head + (Needle(key) + after), key, |head|, blanks, digits, rest);
  }

  lemma SpelledText(blanks: string, digits: string, rest: string)
    requires AllSpace(Lossy(blanks)) && AllDigits(digits) && digits != "" && (rest == "" || !IsDigit(rest[0]))
    ensures Lossy(blanks + (digits + rest)) == Lossy(blanks) + (digits + Lossy(rest))
    ensures Parts(Lossy(blanks), digits, Lossy(rest))
  {
    DigitHead(rest);
    assert (digits + rest)[0] == digits[0] && IsDigit(digits[0]);
    hide Lossy;
    LossySplit(blanks, digits + rest);
    LossyPrefix(digits, rest);
  }

  // ---------- keys read from any tail ----------

  /** The tail after a sequence of writes, and the stream they wrote. */
  ghost function AfterWrites(bufs: seq<string>): string {
    if bufs == [] then "" else TailNext(AfterWrites(bufs[..|bufs| - 1]), bufs[|bufs| - 1])
  }

  ghost function Written(bufs: seq<string>): string {
    if bufs == [] then "" else Written(bufs[..|bufs| - 1]) + bufs[|bufs| - 1]
  }

  lemma {:induction false} AfterWritesIsTail(bufs: seq<string>)
    ensures IsTail(AfterWrites(bufs), Written(bufs))
  {
    if bufs == [] {
    } else {
      AfterWritesIsTail(bufs[..|bufs| - 1]);
      TailStays(AfterWrites(bufs[..|bufs| - 1]), Written(bufs[..|bufs| - 1]), bufs[|bufs| - 1]);
    }
  }

  /** Occurrences in a suffix are the stream's, shifted. */
  lemma SuffixOccurs(tail: string, stream: string, needle: string, i: nat)
    requires IsSuffix(tail, stream)
    ensures OccursAt(tail, needle, i) <==> OccursAt(stream, needle, i + (|stream| - |tail|))
  {
    var off := |stream| - |tail|;
    if i + |needle| <= |tail| {
      assert tail[i..i + |needle|] == stream[i + off..i + off + |needle|];
    }
  }

  /** The stream's last occurrence, if it starts within the suffix, is the suffix's. */
  lemma SuffixFinds(tail: string, stream: string, needle: string)
    requires IsSuffix(tail, stream)
    ensures var off := |stream| - |tail|;
      RFind(tail, needle) == match RFind(stream, needle)
        case Some(i) => (if i >= off then Some(i - off) else None)
        case None => None
  {
    var off := |stream| - |tail|;
    hide OccursAt;
    forall i: nat
      ensures OccursAt(tail, needle, i) <==> OccursAt(stream, needle, i + off)
    {
      SuffixOccurs(tail, stream, needle, i);
    }
    var r := RFind(stream, needle);
    if r.Some? && r.value >= off { assert OccursAt(tail, needle, r.value - off); }
  }

  /** A key whose last occurrence a suffix holds is read from it as from the whole stream. */
  lemma SuffixReads(tail: string, stream: string, key: string)
    requires IsSuffix(tail, stream) && Ascii(key)
    ensures var r := RFind(stream, Needle(key));
      TailNumber(tail, key) == if r.Some? && r.value < |stream| - |tail| then None else TailNumber(stream, key)
  {
    NumberFromBytes(tail, key);
    NumberFromBytes(stream, key);
    hide RFind, Needle, NumberAt, TailNumber, Lossy, OccursAt;
    SuffixAfter(tail, stream, Needle(key));
  }

  lemma SuffixAfter(tail: string, stream: string, needle: string)
    requires IsSuffix(tail, stream)
    ensures var r := RFind(stream, needle);
      NumberAfter(tail, needle) == if r.Some? && r.value < |stream| - |tail| then None else NumberAfter(stream, needle)
  {
    hide RFind, NumberAt, Lossy;
    var off := |stream| - |tail|;
    SuffixFinds(tail, stream, needle);
    var r := RFind(stream, needle);
    if r.Some? && r.value >= off {
      FoundFits(stream, needle);
      assert tail[r.value - off + |needle|..] == stream[r.value + |needle|..];
    }
  }

  lemma FoundFits(hay: string, needle: string)
    ensures RFind(hay, needle).Some? ==> RFind(hay, needle).value + |needle| <= |hay|
  {}

  /** However a stream is cut into writes, its tail gives the key's number as the whole stream does,
      exactly when: the key does not occur, or has no number; or its last occurrence starts in the
      final 4096 bytes; or the stream is short enough never to be cut. */
  lemma KeyReadFromAnyTail(stream: string, key: string)
    requires Ascii(key)
    ensures (forall bufs :: Written(bufs) == stream ==>
        TailNumber(AfterWrites(bufs), key) == TailNumber(stream, key)) <==>
      (var r := RFind(stream, Needle(key));
       r.None? || TailNumber(stream, key).None? || r.value >= |stream| - TAIL_BYTES || |stream| <= 2 * TAIL_BYTES)
  {
    hide TailNumber, RFind, Needle;
    var r := RFind(stream, Needle(key));
    if r.None? || TailNumber(stream, key).None? || r.value >= |stream| - TAIL_BYTES || |stream| <= 2 * TAIL_BYTES {
      forall bufs | Written(bufs) == stream ensures TailNumber(AfterWrites(bufs), key) == TailNumber(stream, key) {
        AfterWritesIsTail(bufs);
        if |stream| <= 2 * TAIL_BYTES { ShortNeverCut(bufs); }
        SuffixReads(AfterWrites(bufs), stream, key);
      }
    } else {
      var bufs := [stream];
      OneWrite(stream);
      AfterWritesIsTail(bufs);
      SuffixReads(AfterWrites(bufs), stream, key);
    }
  }

  lemma OneWrite(stream: string)
    ensures Written([stream]) == stream
    ensures |stream| > 2 * TAIL_BYTES ==> |AfterWrites([stream])| == TAIL_BYTES
  {
    assert [stream][..0] == [];
    assert "" + stream == stream;
  }

  lemma {:induction false} ShortNeverCut(bufs: seq<string>)
    requires |Written(bufs)| <= 2 * TAIL_BYTES
    ensures AfterWrites(bufs) == Written(bufs)
  {
    if bufs == [] {
    } else {
      ShortNeverCut(bufs[..|bufs| - 1]);
    }
  }
}
