/** PyString: a Go string wrapped in an object with Python-like methods.  The
    object holds one byte string, `text`; the queries delegate to Go's strings
    package (modelled in GoStrings), and Strip, Add, Append and Subtract
    replace the held text. */
module PyStrings {
  import opened Utf8
  import GoStrings

  datatype Option<T> = None | Some(value: T)

  /** The message of the error Index returns when the text is not found. */
  const NotFound: string := "Not found"

  /** The bytes of the constant "0123456789". */
  const Digits: seq<byte> := [0x30, 0x31, 0x32, 0x33, 0x34, 0x35, 0x36, 0x37, 0x38, 0x39]

  /** The decimal digits are exactly the bytes '0' to '9', all of them ASCII. */
  lemma DigitsAreAsciiRange(b: int)
    ensures b in Digits <==> 0x30 <= b <= 0x39
  {
    if 0x30 <= b <= 0x39 {
      assert Digits[b - 0x30] == b;
    }
  }

  /** A rune decoded from the front of s is a digit exactly when the first
      byte of s is, and then it takes that one byte. */
  lemma DigitRune(s: seq<byte>)
    requires |s| > 0
    ensures DecodeRune(s).0 in Digits <==> s[0] in Digits
    ensures s[0] in Digits ==> DecodeRune(s) == (s[0], 1)
  {
    DigitsAreAsciiRange(DecodeRune(s).0);
    DigitsAreAsciiRange(s[0]);
  }

  /** s repeated n times. */
  function Repeat(s: seq<byte>, n: nat): (r: seq<byte>)
    ensures |r| == n * |s|
  {
    if n == 0 then [] else Repeat(s, n - 1) + s
  }

  /** Block k of Repeat(s, n) is s itself. */
  lemma {:induction false} RepeatBlock(s: seq<byte>, n: nat, k: nat)
    requires k < n
    ensures k * |s| + |s| <= |Repeat(s, n)|
    ensures Repeat(s, n)[k * |s|..k * |s| + |s|] == s
  {
    var r := Repeat(s, n);
    var prev := Repeat(s, n - 1);
    assert r == prev + s;
    if k < n - 1 {
      RepeatBlock(s, n - 1, k);
      assert r[k * |s|..k * |s| + |s|] == prev[k * |s|..k * |s| + |s|];
    } else {
      assert k * |s| == |prev|;
      assert r[|prev|..] == s;
    }
  }

  /** s with the last occurrence of t cut out, or s itself when t does not
      occur. */
  function RemoveLast(s: seq<byte>, t: seq<byte>): (r: seq<byte>)
    ensures GoStrings.LastIndex(s, t) == -1 ==> r == s
    ensures var p := GoStrings.LastIndex(s, t);
            p != -1 ==> |r| == |s| - |t| && r[..p] + t + r[p..] == s
  {
    var p := GoStrings.LastIndex(s, t);
    GoStrings.LastIndexSpec(s, t);
    if p == -1 then s
    else
      var r := s[..p] + s[p + |t|..];
      assert r[..p] + t + r[p..] == s by {
        assert r[..p] == s[..p];
        assert r[p..] == s[p + |t|..];
        assert s == s[..p] + s[p..p + |t|] + s[p + |t|..];
      }
      r
  }

  /** Cutting out the last occurrence leaves every occurrence that ends before
      it where it was. */
  lemma RemoveLastKeepsEarlier(s: seq<byte>, t: seq<byte>, j: int)
    requires GoStrings.LastIndex(s, t) != -1
    requires 0 <= j && j + |t| <= GoStrings.LastIndex(s, t)
    ensures GoStrings.MatchesAt(RemoveLast(s, t), t, j) <==> GoStrings.MatchesAt(s, t, j)
  {
    var p := GoStrings.LastIndex(s, t);
    var r := RemoveLast(s, t);
    assert r[..p] == s[..p];
    assert r[j..j + |t|] == r[..p][j..j + |t|];
    assert s[j..j + |t|] == s[..p][j..j + |t|];
  }

  /** A Go *PyString: a reference to an object holding one string. */
  class PyString {
    var text: seq<byte>

    /** New: an object holding the given text. */
    constructor (text: seq<byte>)
      ensures this.text == text
    {
      this.text := text;
    }

    /** Get: the held text. */
    function Get(): (r: seq<byte>)
      reads this
      ensures r == text
    {
      text
    }

    /** Empty: the text has no bytes, which is to say no runes. */
    function Empty(): (r: bool)
      reads this
      ensures r <==> text == []
      ensures r <==> RuneCount(text) == 0
    {
      0 == |text|
    }

    /** Find: the offset of the first occurrence of t, or -1 when there is none. */
    function Find(t: seq<byte>): (r: int)
      reads this
      ensures r == -1 <==> forall j :: !GoStrings.MatchesAt(text, t, j)
      ensures r != -1 ==> 0 <= r && GoStrings.MatchesAt(text, t, r)
      ensures forall j :: 0 <= j < r ==> !GoStrings.MatchesAt(text, t, j)
    {
      GoStrings.IndexSpec(text, t);
      GoStrings.Index(text, t)
    }

    /** RFind: the offset of the last occurrence of t, or -1 when there is none. */
    function RFind(t: seq<byte>): (r: int)
      reads this
      ensures r == -1 <==> forall j :: !GoStrings.MatchesAt(text, t, j)
      ensures r != -1 ==> 0 <= r && GoStrings.MatchesAt(text, t, r)
      ensures forall j :: r < j ==> !GoStrings.MatchesAt(text, t, j)
    {
      GoStrings.LastIndexSpec(text, t);
      GoStrings.LastIndex(text, t)
    }

    /** Has: whether t occurs in the text. */
    function Has(t: seq<byte>): (r: bool)
      reads this
      ensures r <==> exists j :: GoStrings.MatchesAt(text, t, j)
      ensures r <==> Find(t) != -1
      ensures r <==> RFind(t) != -1
    {
      GoStrings.IndexSpec(text, t);
      -1 != GoStrings.Index(text, t)
    }

    /** Index: the first offset of t together with an error that is set
        exactly when t does not occur. */
    function Index(t: seq<byte>): (r: (int, Option<string>))
      reads this
      ensures r.0 == Find(t)
      ensures r.1.Some? <==> !Has(t)
      ensures r.1.Some? ==> r.0 == -1 && r.1.value == NotFound
      ensures r.1.None? ==> GoStrings.MatchesAt(text, t, r.0)
    {
      var i := GoStrings.Index(text, t);
      var err := if i == -1 then Some(NotFound) else None;
      (i, err)
    }

    /** Count: the number of non-overlapping occurrences of t that a scan from
        the left picks, which is the most any choice of non-overlapping
        occurrences has; one more than the number of runes when t is empty. */
    function Count(t: seq<byte>): (n: nat)
      reads this
      ensures |t| == 0 ==> n == RuneCount(text) + 1
      ensures |t| > 0 ==> n * |t| <= |text|
      ensures n == 0 <==> !Has(t)
      ensures |t| > 0 ==> n == |GoStrings.MatchOffsets(text, t)| &&
                          GoStrings.GreedyMatches(text, t, GoStrings.MatchOffsets(text, t))
      ensures |t| > 0 ==> forall qs :: GoStrings.AllMatch(text, t, qs) && GoStrings.Disjoint(qs, |t|) ==> |qs| <= n
    {
      if |t| > 0 then
        GoStrings.CountSpec(text, t);
        GoStrings.Count(text, t)
      else
        GoStrings.Count(text, t)
    }

    /** Split: the pieces of the text around each occurrence of sep. */
    function Split(sep: seq<byte>): (parts: seq<seq<byte>>)
      reads this
      ensures GoStrings.Join(parts, sep) == text
      ensures |sep| > 0 ==> |parts| == Count(sep) + 1
      ensures |sep| > 0 ==> forall i :: 0 <= i < |parts| ==> GoStrings.Index(parts[i], sep) == -1
      ensures |sep| > 0 ==> forall i :: 0 <= i < |parts| - 1 ==> GoStrings.Index(parts[i] + sep, sep) == |parts[i]|
      ensures |sep| == 0 ==> |parts| == RuneCount(text)
      ensures |sep| == 0 ==> forall i :: 0 <= i < |parts| ==> GoStrings.FirstRunePiece(parts, i)
    {
      GoStrings.SplitJoin(text, sep);
      GoStrings.Split(text, sep)
    }

    /** EndsWith: compare the last |t| bytes one by one, after ruling out a t
        longer than the text. */
    method EndsWith(t: seq<byte>) returns (r: bool)
      ensures r <==> GoStrings.HasSuffix(text, t)
      ensures r <==> |t| <= |text| && RFind(t) == |text| - |t|
    {
      GoStrings.SuffixIsLastMatch(text, t);
      var startpos := |text| - |t|;
      if startpos < 0 {
        return false;
      }
      var pos := startpos;
      while pos < |text|
        invariant startpos <= pos <= |text|
        invariant forall k :: startpos <= k < pos ==> text[k] == t[k - startpos]
      {
        if text[pos] != t[pos - startpos] {
          assert text[startpos..][pos - startpos] != t[pos - startpos];
          return false;
        }
        pos := pos + 1;
      }
      assert text[startpos..] == t;
      return true;
    }

    /** StartsWith: compare the first |t| bytes one by one, after ruling out
        a t longer than the text. */
    method StartsWith(t: seq<byte>) returns (r: bool)
      ensures r <==> GoStrings.HasPrefix(text, t)
      ensures r <==> Find(t) == 0
    {
      GoStrings.PrefixIsFirstMatch(text, t);
      if |t| > |text| {
        return false;
      }
      var pos := 0;
      while pos < |t|
        invariant 0 <= pos <= |t|
        invariant forall k :: 0 <= k < pos ==> text[k] == t[k]
      {
        if text[pos] != t[pos] {
          assert text[..|t|][pos] != t[pos];
          return false;
        }
        pos := pos + 1;
      }
      assert text[..|t|] == t;
      return true;
    }

    /** IsDigit: false for the empty text; otherwise decode the text rune by
        rune and look each rune up among the digits.  A byte that does not
        decode gives RuneError, which is no digit, so the answer is whether
        every byte is one of '0' to '9'. */
    method IsDigit() returns (r: bool)
      ensures r <==> |text| > 0 && forall i :: 0 <= i < |text| ==> text[i] in Digits
    {
      if Empty() {
        return false;
      }
      var s := text;
      var i := 0;
      while i < |s|
        invariant 0 <= i <= |s|
        invariant forall k :: 0 <= k < i ==> s[k] in Digits
      {
        var letter := DecodeRune(s[i..]);
        var isDigit := false;
        var j := 0;
        while j < |Digits|
          invariant 0 <= j <= |Digits| && !isDigit
          invariant forall m :: 0 <= m < j ==> Digits[m] != letter.0
        {
          if letter.0 == Digits[j] {
            isDigit := true;
            break;
          }
          j := j + 1;
        }
        assert isDigit <==> letter.0 in Digits;
        DigitRune(s[i..]);
        if !isDigit {
          return false;
        }
        i := i + letter.1;
      }
      return true;
    }

    /** Multiply: the text written n times into a fresh buffer; a
        non-positive n gives the empty string and the object is left alone. */
    method Multiply(n: int) returns (r: seq<byte>)
      ensures n <= 0 ==> r == []
      ensures n > 0 ==> r == Repeat(text, n)
      ensures n > 0 ==> |r| == n * |text|
    {
      var buf: seq<byte> := [];
      var i := 0;
      while i < n
        invariant 0 <= i <= (if n > 0 then n else 0)
        invariant buf == Repeat(text, i)
      {
        buf := buf + text;
        i := i + 1;
      }
      r := buf;
    }

    /** Strip: drop leading and trailing white-space runes from the text and
        return the same object. */
    method Strip() returns (r: PyString)
      modifies this
      ensures r == this
      ensures text == GoStrings.TrimSpace(old(text))
    {
      text := GoStrings.TrimSpace(text);
      r := this;
    }

    /** Add: append s to the held text and return the new text. */
    method Add(s: seq<byte>) returns (r: seq<byte>)
      modifies this
      ensures text == old(text) + s
      ensures r == text
    {
      text := text + s;
      r := text;
    }

    /** Append: append s to the held text. */
    method Append(s: seq<byte>)
      modifies this
      ensures text == old(text) + s
    {
      text := text + s;
    }

    /** Subtract: cut the last occurrence of t out of the held text and return
        the new text. */
    method Subtract(t: seq<byte>) returns (r: seq<byte>)
      modifies this
      ensures text == RemoveLast(old(text), t)
      ensures r == text
    {
      var pos := RFind(t);
      if pos != -1 {
        text := text[..pos] + text[pos + |t|..];
      }
      r := text;
    }
  }
}
