/** The cases of the package's tests, and a few more worked examples, stated
    as facts about the model. */
module PyStringTests {
  import opened Utf8
  import GoStrings
  import Unicode
  import opened PyStrings

  /** "aabb" */
  const Aabb: seq<byte> := [0x61, 0x61, 0x62, 0x62]
  /** "bb" */
  const Bb: seq<byte> := [0x62, 0x62]
  /** "aa" */
  const Aa: seq<byte> := [0x61, 0x61]
  /** "aabbaaccaaddaaffaa" */
  const CountInput: seq<byte> :=
    [0x61, 0x61, 0x62, 0x62, 0x61, 0x61, 0x63, 0x63, 0x61, 0x61,
     0x64, 0x64, 0x61, 0x61, 0x66, 0x66, 0x61, 0x61]
  /** "    \n\n\nhello\t\t\n\n\n" */
  const StripInput: seq<byte> :=
    [0x20, 0x20, 0x20, 0x20, 0x0A, 0x0A, 0x0A, 0x68, 0x65, 0x6C, 0x6C, 0x6F,
     0x09, 0x09, 0x0A, 0x0A, 0x0A]
  /** "abcabc" */
  const Abcabc: seq<byte> := [0x61, 0x62, 0x63, 0x61, 0x62, 0x63]
  /** "bc" */
  const Bc: seq<byte> := [0x62, 0x63]
  /** "2012" */
  const Year: seq<byte> := [0x32, 0x30, 0x31, 0x32]
  /** "20x2" */
  const NotYear: seq<byte> := [0x32, 0x30, 0x78, 0x32]
  /** "hello" */
  const Hello: seq<byte> := [0x68, 0x65, 0x6C, 0x6C, 0x6F]

  /** A position whose byte differs from the first byte of t holds no match. */
  lemma NoMatchAt(s: seq<byte>, t: seq<byte>, j: nat)
    requires |t| > 0 && j < |s| && s[j] != t[0]
    ensures !GoStrings.MatchesAt(s, t, j)
  {
  }

  /** One round of Go's counting loop, given where the first match is. */
  lemma CountRound(s: seq<byte>, t: seq<byte>, k: nat)
    requires |t| > 0 && GoStrings.MatchesAt(s, t, k)
    requires forall j :: 0 <= j < k ==> !GoStrings.MatchesAt(s, t, j)
    ensures GoStrings.Count(s, t) == 1 + GoStrings.Count(s[k + |t|..], t)
  {
    GoStrings.IndexSpec(s, t);
  }

  /** A round that skips two bytes and then counts "aa". */
  lemma CountRoundAfterTwo(s: seq<byte>)
    requires |s| >= 4 && s[0] != 0x61 && s[1] != 0x61 && s[2] == 0x61 && s[3] == 0x61
    ensures GoStrings.Count(s, Aa) == 1 + GoStrings.Count(s[4..], Aa)
  {
    assert s[2..4] == Aa;
    NoMatchAt(s, Aa, 0);
    NoMatchAt(s, Aa, 1);
    CountRound(s, Aa, 2);
  }

  /** "ffaa" holds one "aa". */
  lemma CountFrom14(s: seq<byte>)
    requires s == CountInput
    ensures GoStrings.Count(s[14..], Aa) == 1
  {
    CountRoundAfterTwo(s[14..]);
    assert s[14..][4..] == [];
    GoStrings.IndexSpec([], Aa);
  }

  /** "ddaaffaa" holds two. */
  lemma CountFrom10(s: seq<byte>)
    requires s == CountInput
    ensures GoStrings.Count(s[10..], Aa) == 2
  {
    CountRoundAfterTwo(s[10..]);
    assert s[10..][4..] == s[14..];
    CountFrom14(s);
  }

  /** "ccaaddaaffaa" holds three. */
  lemma CountFrom6(s: seq<byte>)
    requires s == CountInput
    ensures GoStrings.Count(s[6..], Aa) == 3
  {
    CountRoundAfterTwo(s[6..]);
    assert s[6..][4..] == s[10..];
    CountFrom10(s);
  }

  /** "bbaaccaaddaaffaa" holds four. */
  lemma CountFrom2(s: seq<byte>)
    requires s == CountInput
    ensures GoStrings.Count(s[2..], Aa) == 4
  {
    CountRoundAfterTwo(s[2..]);
    assert s[2..][4..] == s[6..];
    CountFrom6(s);
  }

  /** "aa" in "aabbaaccaaddaaffaa": matches at 0, 4, 8, 12 and 16. */
  lemma CountExample(s: seq<byte>)
    requires s == CountInput
    ensures GoStrings.Count(s, Aa) == 5
  {
    assert s[..2] == Aa;
    CountRound(s, Aa, 0);
    CountFrom2(s);
  }

  /** Decoding forward, an ASCII byte is a rune of its own. */
  lemma FirstAsciiRune(s: seq<byte>, i: nat)
    requires i < |s| && s[i] < RuneSelf
    ensures DecodeRune(s[i..]) == (s[i], 1)
  {
    assert s[i..][0] == s[i];
  }

  /** The forward scan of TrimLeftFunc passes an ASCII byte that f
      accepts. */
  lemma FirstRuneNotPassAscii(s: seq<byte>, f: int -> bool, i: nat)
    requires i < |s| && s[i] < RuneSelf && f(s[i])
    ensures GoStrings.FirstRuneNot(s, f, i) == GoStrings.FirstRuneNot(s, f, i + 1)
  {
    FirstAsciiRune(s, i);
  }

  /** The forward scan of TrimLeftFunc stops at an ASCII byte that f
      rejects. */
  lemma FirstRuneNotStopAscii(s: seq<byte>, f: int -> bool, i: nat)
    requires i < |s| && s[i] < RuneSelf && !f(s[i])
    ensures GoStrings.FirstRuneNot(s, f, i) == i
  {
    FirstAsciiRune(s, i);
  }

  /** Decoding backwards, an ASCII byte is a rune of its own. */
  lemma LastAsciiRune(s: seq<byte>, i: nat)
    requires 0 < i <= |s| && s[i - 1] < RuneSelf
    ensures DecodeLastRune(s[..i]) == (s[i - 1], 1)
  {
    assert s[..i][|s[..i]| - 1] == s[i - 1];
  }

  /** The backward scan of TrimRightFunc passes an ASCII byte that f
      accepts. */
  lemma LastRuneNotPassAscii(s: seq<byte>, f: int -> bool, i: nat)
    requires 0 < i <= |s| && s[i - 1] < RuneSelf && f(s[i - 1])
    ensures GoStrings.LastRuneNot(s, f, i) == GoStrings.LastRuneNot(s, f, i - 1)
  {
    LastAsciiRune(s, i);
  }

  /** The backward scan of TrimRightFunc stops at an ASCII byte that f
      rejects. */
  lemma LastRuneNotStopAscii(s: seq<byte>, f: int -> bool, i: nat)
    requires 0 < i <= |s| && s[i - 1] < RuneSelf && !f(s[i - 1])
    ensures GoStrings.LastRuneNot(s, f, i) == i - 1
  {
    LastAsciiRune(s, i);
  }

  /** Over a run of ASCII bytes that f accepts the forward scan stops at the
      first ASCII byte that f rejects. */
  lemma {:induction false} FirstRuneNotAfterRun(s: seq<byte>, f: int -> bool, i: nat, j: nat)
    requires i <= j < |s| && s[j] < RuneSelf && !f(s[j])
    requires forall k :: i <= k < j ==> s[k] < RuneSelf && f(s[k])
    ensures GoStrings.FirstRuneNot(s, f, i) == j
    decreases j - i
  {
    if i < j {
      FirstRuneNotPassAscii(s, f, i);
      FirstRuneNotAfterRun(s, f, i + 1, j);
    } else {
      FirstRuneNotStopAscii(s, f, i);
    }
  }

  /** Over a run of ASCII bytes that f accepts the backward scan stops at the
      last ASCII byte before it that f rejects. */
  lemma {:induction false} LastRuneNotBeforeRun(s: seq<byte>, f: int -> bool, i: nat, j: nat)
    requires j < i <= |s| && s[j] < RuneSelf && !f(s[j])
    requires forall k :: j < k < i ==> s[k] < RuneSelf && f(s[k])
    ensures GoStrings.LastRuneNot(s, f, i) == j
    decreases i - j
  {
    if j < i - 1 {
      LastRuneNotPassAscii(s, f, i);
      LastRuneNotBeforeRun(s, f, i - 1, j);
    } else {
      LastRuneNotStopAscii(s, f, i);
    }
  }

  /** "hello" followed by two tabs and three newlines. */
  const HelloAndSpace: seq<byte> := [0x68, 0x65, 0x6C, 0x6C, 0x6F, 0x09, 0x09, 0x0A, 0x0A, 0x0A]

  /** Four blanks and three newlines come before "hello". */
  lemma LeadingSpaceExample(s: seq<byte>)
    requires s == StripInput
    ensures GoStrings.TrimLeftStart(s, Unicode.IsSpace, 0) == 7
  {
    FirstRuneNotAfterRun(s, Unicode.IsSpace, 0, 7);
  }

  /** What follows the leading white space of the input is "hello" and the
      trailing white space. */
  lemma StripInputTail(s: seq<byte>)
    requires s == StripInput
    ensures s[7..] == HelloAndSpace
  {
  }

  lemma TrimLeftExample(s: seq<byte>)
    requires s == StripInput
    ensures GoStrings.TrimLeftFunc(s, Unicode.IsSpace) == HelloAndSpace
  {
    LeadingSpaceExample(s);
    StripInputTail(s);
  }

  /** Two tabs and three newlines come after "hello". */
  lemma TrimRightExample(t: seq<byte>)
    requires t == HelloAndSpace
    ensures GoStrings.TrimRightFunc(t, Unicode.IsSpace) == Hello
  {
    LastRuneNotBeforeRun(t, Unicode.IsSpace, 10, 4);
  }

  /** Stripping both ends of "    \n\n\nhello\t\t\n\n\n" leaves "hello". */
  lemma StripExample(s: seq<byte>)
    requires s == StripInput
    ensures GoStrings.TrimSpace(s) == Hello
  {
    TrimLeftExample(s);
    TrimRightExample(GoStrings.TrimLeftFunc(s, Unicode.IsSpace));
  }

  /** NEL (U+0085) and the ideographic space (U+3000) decode from their
      two- and three-byte encodings. */
  lemma WideSpaceDecode()
    ensures DecodeRune([0xC2, 0x85]) == (0x85, 2) && Unicode.IsSpace(0x85)
    ensures DecodeRune([0xE3, 0x80, 0x80]) == (0x3000, 3) && Unicode.IsSpace(0x3000)
  {
    EncodeDecode(0x85, []);
    assert EncodeRune(0x85) + [] == [0xC2, 0x85];
    EncodeDecode(0x3000, []);
    assert EncodeRune(0x3000) + [] == [0xE3, 0x80, 0x80];
  }

  /** "\u3000a\u00a0": TrimSpace drops the ideographic space in front and the
      no-break space behind, and keeps "a". */
  lemma WideSpaceStripExample(s: seq<byte>)
    requires s == [0xE3, 0x80, 0x80, 0x61, 0xC2, 0xA0]
    ensures GoStrings.TrimSpace(s) == [0x61]
  {
    var f := Unicode.IsSpace;
    EncodeDecode(0x3000, s[3..]);
    assert s == EncodeRune(0x3000) + s[3..] && s[0..] == s;
    GoStrings.FirstRuneNotStep(s, f, 0, 3, GoStrings.TrimLeftStart(s, f, 0));
    FirstRuneNotStopAscii(s, f, 3);
    var t := s[3..];
    assert GoStrings.TrimLeftFunc(s, f) == t;
    DecodeLastRuneEncoded([0x61], 0xA0);
    assert t[..3] == [0x61] + EncodeRune(0xA0);
    GoStrings.LastRuneNotStep(t, f, 3);
    LastRuneNotStopAscii(t, f, 1);
    assert GoStrings.TrimRightEnd(t, f, 1) == 1;
  }

  /** TestIndex: "bb" is found at offset 2 of "aabb", with no error. */
  method IndexTest() returns (i: int, err: Option<string>)
    ensures i == 2 && err == None
  {
    var p := new PyString(Aabb);
    assert Aabb[2..4] == Bb;
    NoMatchAt(Aabb, Bb, 0);
    NoMatchAt(Aabb, Bb, 1);
    var r := p.Index(Bb);
    i, err := r.0, r.1;
  }

  /** TestCount: "aa" occurs five times in "aabbaaccaaddaaffaa". */
  method CountTest() returns (n: int)
    ensures n == 5
  {
    var p := new PyString(CountInput);
    CountExample(CountInput);
    n := p.Count(Aa);
  }

  /** TestStrip: stripping "    \n\n\nhello\t\t\n\n\n" leaves "hello". */
  method StripTest() returns (s: seq<byte>)
    ensures s == Hello
  {
    var p := new PyString(StripInput);
    StripExample(StripInput);
    var q := p.Strip();
    s := q.text;
  }

  /** Subtracting "bc" from "abcabc" cuts out the second "bc" only. */
  method SubtractTest() returns (r: seq<byte>)
    ensures r == [0x61, 0x62, 0x63, 0x61]
  {
    var p := new PyString(Abcabc);
    assert Abcabc[4..6] == Bc;
    assert GoStrings.MatchesAt(Abcabc, Bc, 4);
    r := p.Subtract(Bc);
  }

  /** "2012" is all digits, "20x2" is not, and the empty text is not. */
  method IsDigitTest() returns (yes: bool, no: bool, empty: bool)
    ensures yes && !no && !empty
  {
    var p := new PyString(Year);
    yes := p.IsDigit();
    var q := new PyString(NotYear);
    no := q.IsDigit();
    assert NotYear[2] !in Digits;
    var e := new PyString([]);
    empty := e.IsDigit();
  }

  /** "bc" times three is "bcbcbc"; times zero or less it is empty. */
  method MultiplyTest() returns (three: seq<byte>, none: seq<byte>)
    ensures three == [0x62, 0x63, 0x62, 0x63, 0x62, 0x63] && none == []
  {
    var p := new PyString(Bc);
    three := p.Multiply(3);
    none := p.Multiply(-1);
  }
}
