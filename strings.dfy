/** The functions of Go's strings package that PyString delegates to, as
    specifications over byte sequences: Index, LastIndex, Count, Split, Join,
    HasPrefix, HasSuffix and TrimSpace.  Offsets are byte offsets, as in Go. */
module GoStrings {
  import opened Utf8
  import Unicode

  /** t occurs in s starting at byte offset i. */
  predicate MatchesAt(s: seq<byte>, t: seq<byte>, i: int) {
    0 <= i <= |s| - |t| && s[i..i + |t|] == t
  }

  /** The first offset at or after `from` where t occurs in s, or -1. */
  function IndexFrom(s: seq<byte>, t: seq<byte>, from: nat): (r: int)
    requires from <= |s|
    ensures r == -1 || from <= r <= |s| - |t|
    decreases |s| - from
  {
    if from + |t| > |s| then -1
    else if s[from..from + |t|] == t then from
    else IndexFrom(s, t, from + 1)
  }

  /** The forward search finds a match, and none before it. */
  lemma {:induction false} IndexFromSpec(s: seq<byte>, t: seq<byte>, from: nat)
    requires from <= |s|
    ensures var r := IndexFrom(s, t, from);
            (r == -1 || MatchesAt(s, t, r)) &&
            forall j :: from <= j && (r == -1 || j < r) ==> !MatchesAt(s, t, j)
    decreases |s| - from
  {
    if from + |t| <= |s| && s[from..from + |t|] != t {
      IndexFromSpec(s, t, from + 1);
    }
  }

  /** strings.Index: the offset of the first occurrence of t in s, or -1.
      The empty t occurs at offset 0. */
  function Index(s: seq<byte>, t: seq<byte>): (r: int)
    ensures r == -1 || 0 <= r <= |s| - |t|
  {
    IndexFrom(s, t, 0)
  }

  /** Index finds the first occurrence, and -1 exactly when there is none. */
  lemma IndexSpec(s: seq<byte>, t: seq<byte>)
    ensures var r := Index(s, t);
            (r >= 0 ==> MatchesAt(s, t, r) && forall j :: 0 <= j < r ==> !MatchesAt(s, t, j)) &&
            (r == -1 <==> forall j :: !MatchesAt(s, t, j))
  {
    IndexFromSpec(s, t, 0);
  }

  /** The last offset at or before `upto` where t occurs in s, or -1. */
  function LastIndexFrom(s: seq<byte>, t: seq<byte>, upto: int): (r: int)
    requires upto <= |s| - |t|
    ensures r == -1 || 0 <= r <= upto
    decreases upto + 1
  {
    if upto < 0 then -1
    else if s[upto..upto + |t|] == t then upto
    else LastIndexFrom(s, t, upto - 1)
  }

  /** The backward search finds a match, and none after it. */
  lemma {:induction false} LastIndexFromSpec(s: seq<byte>, t: seq<byte>, upto: int)
    requires upto <= |s| - |t|
    ensures var r := LastIndexFrom(s, t, upto);
            (r == -1 || MatchesAt(s, t, r)) &&
            forall j :: r < j <= upto ==> !MatchesAt(s, t, j)
    decreases upto + 1
  {
    if upto >= 0 && s[upto..upto + |t|] != t {
      LastIndexFromSpec(s, t, upto - 1);
    }
  }

  /** strings.LastIndex: the offset of the last occurrence of t in s, or -1.
      The empty t occurs last at offset |s|. */
  function LastIndex(s: seq<byte>, t: seq<byte>): (r: int)
    ensures r == -1 || 0 <= r <= |s| - |t|
  {
    LastIndexFrom(s, t, |s| - |t|)
  }

  /** LastIndex finds the last occurrence, and -1 exactly when there is none. */
  lemma LastIndexSpec(s: seq<byte>, t: seq<byte>)
    ensures var r := LastIndex(s, t);
            (r >= 0 ==> MatchesAt(s, t, r) && forall j :: r < j ==> !MatchesAt(s, t, j)) &&
            (r == -1 <==> forall j :: !MatchesAt(s, t, j))
  {
    LastIndexFromSpec(s, t, |s| - |t|);
  }

  /** Go's loop for a non-empty t: find the first occurrence, count it, and
      go on with what follows it, so the counted occurrences do not overlap. */
  function CountMatches(s: seq<byte>, t: seq<byte>): (n: nat)
    requires |t| > 0
    ensures n <= |s|
    decreases |s|
  {
    var k := Index(s, t);
    if k == -1 then 0 else 1 + CountMatches(s[k + |t|..], t)
  }

  lemma MulSucc(m: nat, l: nat)
    ensures (1 + m) * l == l + m * l
  {
  }

  /** The counted occurrences do not overlap, so they fit in the text. */
  lemma {:induction false} CountMatchesBound(s: seq<byte>, t: seq<byte>)
    requires |t| > 0
    ensures CountMatches(s, t) * |t| <= |s|
    decreases |s|
  {
    var k := Index(s, t);
    if k != -1 {
      var m := CountMatches(s[k + |t|..], t);
      CountMatchesBound(s[k + |t|..], t);
      assert CountMatches(s, t) == 1 + m;
      MulSucc(m, |t|);
    }
  }

  /** A match in the suffix s[m..] is a match in s, m bytes further on. */
  lemma MatchInSuffix(s: seq<byte>, t: seq<byte>, m: nat, j: int)
    requires m <= |s| && 0 <= j
    ensures MatchesAt(s[m..], t, j) <==> MatchesAt(s, t, j + m)
  {
    if j + |t| <= |s| - m {
      assert s[m..][j..j + |t|] == s[j + m..j + m + |t|];
    }
  }

  /** Each offset of ps moved by d. */
  function Shift(ps: seq<int>, d: int): (r: seq<int>)
    ensures |r| == |ps| && forall i :: 0 <= i < |ps| ==> r[i] == ps[i] + d
  {
    seq(|ps|, i requires 0 <= i < |ps| => ps[i] + d)
  }

  /** t occurs at every offset of ps. */
  predicate AllMatch(s: seq<byte>, t: seq<byte>, ps: seq<int>) {
    forall i :: 0 <= i < |ps| ==> MatchesAt(s, t, ps[i])
  }

  /** Each offset of ps starts no earlier than the end of an occurrence of
      length l at the offset before it: the occurrences do not overlap. */
  predicate Disjoint(ps: seq<int>, l: nat) {
    forall i :: 0 <= i < |ps| - 1 ==> ps[i] + l <= ps[i + 1]
  }

  /** t occurs at no offset from lo up to, not including, hi. */
  predicate NoMatchBetween(s: seq<byte>, t: seq<byte>, lo: int, hi: int) {
    forall j :: lo <= j < hi ==> !MatchesAt(s, t, j)
  }

  /** No match starts between the end of one occurrence of ps and the next. */
  predicate NoMatchInGaps(s: seq<byte>, t: seq<byte>, ps: seq<int>) {
    forall i :: 0 <= i < |ps| - 1 ==> NoMatchBetween(s, t, ps[i] + |t|, ps[i + 1])
  }

  /** No match starts after the end of the last occurrence of ps. */
  predicate NoMatchAfterLast(s: seq<byte>, t: seq<byte>, ps: seq<int>) {
    |ps| > 0 ==> NoMatchBetween(s, t, ps[|ps| - 1] + |t|, |s| + 1)
  }

  /** ps are the occurrences a left-to-right scan picks: each is a match, it
      is the first match at or after the end of the one before (or at or
      after 0 for the first), and no match starts after the end of the last. */
  predicate GreedyMatches(s: seq<byte>, t: seq<byte>, ps: seq<int>) {
    AllMatch(s, t, ps) && Disjoint(ps, |t|) &&
    NoMatchBetween(s, t, 0, if |ps| == 0 then |s| + 1 else ps[0]) &&
    NoMatchInGaps(s, t, ps) && NoMatchAfterLast(s, t, ps)
  }

  /** The offsets of the occurrences CountMatches counts. */
  function MatchOffsets(s: seq<byte>, t: seq<byte>): seq<int>
    requires |t| > 0
    decreases |s|
  {
    var k := Index(s, t);
    if k == -1 then [] else [k] + Shift(MatchOffsets(s[k + |t|..], t), k + |t|)
  }

  /** Matches of the suffix s[m..], moved by m, are matches of s, and they
      still do not overlap. */
  lemma ShiftMatches(s: seq<byte>, t: seq<byte>, m: nat, qs: seq<int>, ps: seq<int>)
    requires m <= |s| && AllMatch(s[m..], t, qs) && Disjoint(qs, |t|) && ps == Shift(qs, m)
    ensures AllMatch(s, t, ps) && Disjoint(ps, |t|)
    ensures |ps| == 0 || m <= ps[0]
  {
    forall i | 0 <= i < |ps| ensures MatchesAt(s, t, ps[i]) {
      assert MatchesAt(s[m..], t, qs[i]);
      MatchInSuffix(s, t, m, qs[i]);
    }
    if |ps| > 0 {
      assert MatchesAt(s[m..], t, qs[0]);
    }
  }

  /** No match in the suffix s[m..] between lo and hi means none in s
      between m + lo and m + hi. */
  lemma ShiftNoMatch(s: seq<byte>, t: seq<byte>, m: nat, lo: nat, hi: int)
    requires m <= |s| && NoMatchBetween(s[m..], t, lo, hi)
    ensures NoMatchBetween(s, t, m + lo, m + hi)
  {
    forall j | m + lo <= j < m + hi ensures !MatchesAt(s, t, j) {
      MatchInSuffix(s, t, m, j - m);
    }
  }

  /** The gaps between greedy matches of s[m..], moved by m, hold no match
      of s. */
  lemma ShiftGaps(s: seq<byte>, t: seq<byte>, m: nat, qs: seq<int>, ps: seq<int>)
    requires m <= |s| && AllMatch(s[m..], t, qs) && NoMatchInGaps(s[m..], t, qs)
    requires ps == Shift(qs, m)
    ensures NoMatchInGaps(s, t, ps)
  {
    forall i | 0 <= i < |ps| - 1 ensures NoMatchBetween(s, t, ps[i] + |t|, ps[i + 1]) {
      assert MatchesAt(s[m..], t, qs[i]);
      assert NoMatchBetween(s[m..], t, qs[i] + |t|, qs[i + 1]);
      ShiftNoMatch(s, t, m, qs[i] + |t|, qs[i + 1]);
    }
  }

  /** Greedy matches of the suffix s[m..], moved by m, are matches of s that
      do not overlap, with no match of s between them or after the last. */
  lemma ShiftGreedy(s: seq<byte>, t: seq<byte>, m: nat, qs: seq<int>, ps: seq<int>)
    requires m <= |s| && GreedyMatches(s[m..], t, qs) && ps == Shift(qs, m)
    ensures AllMatch(s, t, ps) && Disjoint(ps, |t|) && (|ps| == 0 || m <= ps[0])
    ensures NoMatchBetween(s, t, m, if |ps| == 0 then |s| + 1 else ps[0])
    ensures NoMatchInGaps(s, t, ps) && NoMatchAfterLast(s, t, ps)
  {
    ShiftMatches(s, t, m, qs, ps);
    ShiftGaps(s, t, m, qs, ps);
    if |qs| == 0 {
      ShiftNoMatch(s, t, m, 0, |s| - m + 1);
    } else {
      ShiftNoMatch(s, t, m, 0, qs[0]);
      assert MatchesAt(s[m..], t, qs[|qs| - 1]);
      ShiftNoMatch(s, t, m, qs[|qs| - 1] + |t|, |s| - m + 1);
    }
  }

  /** The first match k in front of greedy matches ps that start at or after
      its end gives greedy matches [k] + ps. */
  lemma GreedyCons(s: seq<byte>, t: seq<byte>, k: int, ps: seq<int>)
    requires MatchesAt(s, t, k) && NoMatchBetween(s, t, 0, k)
    requires AllMatch(s, t, ps) && Disjoint(ps, |t|) && (|ps| == 0 || k + |t| <= ps[0])
    requires NoMatchBetween(s, t, k + |t|, if |ps| == 0 then |s| + 1 else ps[0])
    requires NoMatchInGaps(s, t, ps) && NoMatchAfterLast(s, t, ps)
    ensures GreedyMatches(s, t, [k] + ps)
  {
    var qs := [k] + ps;
    assert qs[1..] == ps;
    if ps != [] {
      assert MatchesAt(s, t, ps[0]);
    }
    forall i | 0 <= i < |qs| - 1 ensures NoMatchBetween(s, t, qs[i] + |t|, qs[i + 1]) {
      if i > 0 {
        assert NoMatchBetween(s, t, ps[i - 1] + |t|, ps[i]);
      }
    }
  }

  /** MatchOffsets lists, left to right, the greedy occurrences of t, one per
      occurrence CountMatches counts. */
  lemma {:induction false} MatchOffsetsSpec(s: seq<byte>, t: seq<byte>)
    requires |t| > 0
    ensures |MatchOffsets(s, t)| == CountMatches(s, t)
    ensures GreedyMatches(s, t, MatchOffsets(s, t))
    decreases |s|
  {
    var k := Index(s, t);
    IndexSpec(s, t);
    if k != -1 {
      var m := k + |t|;
      var qs := MatchOffsets(s[m..], t);
      var ps := Shift(qs, m);
      MatchOffsetsSpec(s[m..], t);
      ShiftGreedy(s, t, m, qs, ps);
      GreedyCons(s, t, k, ps);
      assert MatchOffsets(s, t) == [k] + ps;
    }
  }

  /** In non-overlapping offsets, every offset after the first starts no
      earlier than the end of the first occurrence. */
  lemma {:induction false} DisjointFirst(ps: seq<int>, l: nat, i: nat)
    requires Disjoint(ps, l) && 0 < i < |ps|
    ensures ps[0] + l <= ps[i]
    decreases i
  {
    if i > 1 {
      DisjointFirst(ps, l, i - 1);
    }
  }

  /** Non-overlapping matches after the first, moved back by m, are
      non-overlapping matches of s[m..] when the first ends at or after m. */
  lemma DropFirstMatch(s: seq<byte>, t: seq<byte>, m: nat, qs: seq<int>, rs: seq<int>)
    requires |qs| > 0 && AllMatch(s, t, qs) && Disjoint(qs, |t|)
    requires m <= qs[0] + |t| && m <= |s| && rs == Shift(qs[1..], -(m as int))
    ensures AllMatch(s[m..], t, rs) && Disjoint(rs, |t|)
  {
    forall i | 0 <= i < |rs| ensures MatchesAt(s[m..], t, rs[i]) {
      DisjointFirst(qs, |t|, i + 1);
      assert MatchesAt(s, t, qs[i + 1]);
      MatchInSuffix(s, t, m, rs[i]);
    }
    forall i | 0 <= i < |rs| - 1 ensures rs[i] + |t| <= rs[i + 1] {
      assert qs[i + 1] + |t| <= qs[i + 2];
    }
  }

  /** No list of non-overlapping occurrences of t is longer than the greedy
      one. */
  lemma {:induction false} CountMatchesMaximal(s: seq<byte>, t: seq<byte>, qs: seq<int>)
    requires |t| > 0 && AllMatch(s, t, qs) && Disjoint(qs, |t|)
    ensures |qs| <= CountMatches(s, t)
    decreases |s|
  {
    if |qs| > 0 {
      IndexSpec(s, t);
      var k := Index(s, t);
      assert MatchesAt(s, t, qs[0]);
      var m := k + |t|;
      var rs := Shift(qs[1..], -m);
      DropFirstMatch(s, t, m, qs, rs);
      CountMatchesMaximal(s[m..], t, rs);
    }
  }

  /** For a non-empty t, Count is the number of occurrences the left-to-right
      scan picks, and no choice of non-overlapping occurrences has more. */
  lemma CountSpec(s: seq<byte>, t: seq<byte>)
    requires |t| > 0
    ensures Count(s, t) == |MatchOffsets(s, t)|
    ensures GreedyMatches(s, t, MatchOffsets(s, t))
    ensures forall qs :: AllMatch(s, t, qs) && Disjoint(qs, |t|) ==> |qs| <= Count(s, t)
  {
    MatchOffsetsSpec(s, t);
    forall qs | AllMatch(s, t, qs) && Disjoint(qs, |t|) ensures |qs| <= Count(s, t) {
      CountMatchesMaximal(s, t, qs);
    }
  }

  /** strings.Count: the number of non-overlapping occurrences of t in s; for
      the empty t, one more than the number of runes in s. */
  function Count(s: seq<byte>, t: seq<byte>): (n: nat)
    ensures |t| == 0 ==> n == RuneCount(s) + 1
    ensures |t| > 0 ==> n * |t| <= |s|
    ensures n == 0 <==> Index(s, t) == -1
  {
    if |t| == 0 then RuneCount(s) + 1
    else
      CountMatchesBound(s, t);
      CountMatches(s, t)
  }

  /** Text appended after the first occurrence of t does not move it. */
  lemma AppendKeepsFirstMatch(a: seq<byte>, b: seq<byte>, t: seq<byte>)
    requires Index(a, t) != -1
    ensures Index(a + b, t) == Index(a, t)
  {
    var i := Index(a, t);
    var s := a + b;
    IndexSpec(a, t);
    IndexSpec(s, t);
    assert s[i..i + |t|] == a[i..i + |t|];
    assert MatchesAt(s, t, i);
    forall j | 0 <= j < i
      ensures !MatchesAt(s, t, j)
    {
      assert !MatchesAt(a, t, j);
      assert s[j..j + |t|] == a[j..j + |t|];
    }
  }

  /** strings.Join: the parts with sep between each two neighbours. */
  function Join(parts: seq<seq<byte>>, sep: seq<byte>): seq<byte>
    decreases |parts|
  {
    if |parts| == 0 then []
    else if |parts| == 1 then parts[0]
    else parts[0] + sep + Join(parts[1..], sep)
  }

  lemma JoinCons(p: seq<byte>, rest: seq<seq<byte>>, sep: seq<byte>)
    requires |rest| > 0
    ensures Join([p] + rest, sep) == p + sep + Join(rest, sep)
  {
    assert ([p] + rest)[1..] == rest;
  }

  /** Cutting s around a match at k. */
  lemma SliceAroundMatch(s: seq<byte>, t: seq<byte>, k: nat)
    requires MatchesAt(s, t, k)
    ensures s == s[..k] + t + s[k + |t|..]
  {
    assert s == s[..k] + s[k..k + |t|] + s[k + |t|..];
  }

  /** A match inside a prefix of s is a match in s. */
  lemma MatchInPrefix(s: seq<byte>, t: seq<byte>, e: nat, j: int)
    requires e <= |s| && MatchesAt(s[..e], t, j)
    ensures MatchesAt(s, t, j)
  {
    assert s[..e][j..j + |t|] == s[j..j + |t|];
  }

  /** Go's genSplit for a non-empty sep and no limit: the piece before the
      first occurrence of sep, then the pieces of what follows it. */
  function SplitPieces(s: seq<byte>, sep: seq<byte>): (parts: seq<seq<byte>>)
    requires |sep| > 0
    ensures 0 < |parts| <= |s| + 1
    decreases |s|
  {
    var k := Index(s, sep);
    if k == -1 then [s] else [s[..k]] + SplitPieces(s[k + |sep|..], sep)
  }

  /** One more piece than there are occurrences. */
  lemma {:induction false} SplitPiecesCount(s: seq<byte>, sep: seq<byte>)
    requires |sep| > 0
    ensures |SplitPieces(s, sep)| == CountMatches(s, sep) + 1
    decreases |s|
  {
    var k := Index(s, sep);
    if k != -1 {
      var rest := s[k + |sep|..];
      SplitPiecesCount(rest, sep);
      SplitPiecesStep(s, sep, k, rest);
    }
  }

  /** One occurrence adds one piece and one to the count. */
  lemma {:induction false} SplitPiecesStep(s: seq<byte>, sep: seq<byte>, k: int, rest: seq<byte>)
    requires |sep| > 0 && k == Index(s, sep) && k != -1 && rest == s[k + |sep|..]
    ensures |SplitPieces(s, sep)| == 1 + |SplitPieces(rest, sep)|
    ensures CountMatches(s, sep) == 1 + CountMatches(rest, sep)
  {
    CountMatchesStep(s, sep, k, rest);
  }

  /** One occurrence adds one to the count. */
  lemma {:induction false} CountMatchesStep(s: seq<byte>, t: seq<byte>, k: int, rest: seq<byte>)
    requires |t| > 0 && k == Index(s, t) && k != -1 && rest == s[k + |t|..]
    ensures CountMatches(s, t) == 1 + CountMatches(rest, t)
  {
  }

  /** Putting the separators back between the pieces gives the text. */
  lemma {:induction false} SplitPiecesJoin(s: seq<byte>, sep: seq<byte>)
    requires |sep| > 0
    ensures Join(SplitPieces(s, sep), sep) == s
    decreases |s|
  {
    var k := Index(s, sep);
    if k != -1 {
      var rest := SplitPieces(s[k + |sep|..], sep);
      SplitPiecesJoin(s[k + |sep|..], sep);
      IndexSpec(s, sep);
      JoinCons(s[..k], rest, sep);
      SliceAroundMatch(s, sep, k);
    }
  }

  /** No piece contains the separator. */
  lemma {:induction false} SplitPiecesNoSep(s: seq<byte>, sep: seq<byte>)
    requires |sep| > 0
    ensures forall i :: 0 <= i < |SplitPieces(s, sep)| ==> Index(SplitPieces(s, sep)[i], sep) == -1
    decreases |s|
  {
    var parts := SplitPieces(s, sep);
    var k := Index(s, sep);
    IndexSpec(s, sep);
    if k != -1 {
      assert Index(parts[0], sep) == -1 by {
        IndexSpec(parts[0], sep);
        forall j | MatchesAt(s[..k], sep, j) ensures false {
          MatchInPrefix(s, sep, k, j);
        }
      }
      SplitPiecesNoSep(s[k + |sep|..], sep);
      assert parts[1..] == SplitPieces(s[k + |sep|..], sep);
    }
  }

  /** A piece cut off before the first occurrence of sep, with sep put back
      after it, has its first occurrence of sep right at its end. */
  lemma CutAtFirst(s: seq<byte>, sep: seq<byte>, k: int)
    requires k == Index(s, sep) && k != -1
    ensures Index(s[..k] + sep, sep) == k
  {
    var e := k + |sep|;
    var u := s[..k] + sep;
    IndexSpec(s, sep);
    IndexSpec(u, sep);
    assert u == s[..e];
    assert MatchesAt(u, sep, k);
    forall j | 0 <= j < k && MatchesAt(u, sep, j) ensures false {
      assert MatchesAt(s[..e], sep, j);
      MatchInPrefix(s, sep, e, j);
    }
  }

  /** Every piece but the last ends where the first occurrence of sep in the
      rest of the text begins: the cuts are made left to right at the first
      occurrence each time. */
  lemma {:induction false} SplitPiecesFirstCut(s: seq<byte>, sep: seq<byte>)
    requires |sep| > 0
    ensures forall i :: 0 <= i < |SplitPieces(s, sep)| - 1 ==>
              Index(SplitPieces(s, sep)[i] + sep, sep) == |SplitPieces(s, sep)[i]|
    decreases |s|
  {
    var parts := SplitPieces(s, sep);
    var k := Index(s, sep);
    if k != -1 {
      var rest := SplitPieces(s[k + |sep|..], sep);
      SplitPiecesFirstCut(s[k + |sep|..], sep);
      CutAtFirst(s, sep, k);
      assert parts == [s[..k]] + rest;
      forall i | 0 < i < |parts| - 1 ensures Index(parts[i] + sep, sep) == |parts[i]| {
        assert parts[i] == rest[i - 1] && i - 1 < |rest| - 1;
        assert Index(rest[i - 1] + sep, sep) == |rest[i - 1]|;
      }
    }
  }

  /** The pieces are determined: any list of pieces that joins back to s,
      whose every cut is at the first occurrence of sep and whose last piece
      holds no sep, is the split of s. */
  lemma {:induction false} SplitPiecesUnique(s: seq<byte>, sep: seq<byte>, parts: seq<seq<byte>>)
    requires |sep| > 0 && |parts| > 0 && Join(parts, sep) == s
    requires forall i :: 0 <= i < |parts| - 1 ==> Index(parts[i] + sep, sep) == |parts[i]|
    requires Index(parts[|parts| - 1], sep) == -1
    ensures parts == SplitPieces(s, sep)
    decreases |parts|
  {
    if |parts| > 1 {
      var p := parts[0];
      var tail := parts[1..];
      assert parts == [p] + tail;
      JoinCons(p, tail, sep);
      assert Index(p + sep, sep) == |p|;
      AppendKeepsFirstMatch(p + sep, Join(tail, sep), sep);
      assert s == (p + sep) + Join(tail, sep);
      assert Index(s, sep) == |p|;
      assert s[..|p|] == p && s[|p| + |sep|..] == Join(tail, sep);
      forall i | 0 <= i < |tail| - 1 ensures Index(tail[i] + sep, sep) == |tail[i]| {
        assert tail[i] == parts[i + 1];
      }
      SplitPiecesUnique(s[|p| + |sep|..], sep, tail);
    }
  }

  /** Go's explode, the split by an empty separator: one piece per rune, each
      the bytes that rune takes. */
  function Explode(s: seq<byte>): (parts: seq<seq<byte>>)
    ensures |parts| <= |s|
    ensures parts == [] <==> s == []
    decreases |s|
  {
    if s == [] then [] else [s[..DecodeRune(s).1]] + Explode(s[DecodeRune(s).1..])
  }

  /** One piece per rune, of one to four bytes, and together they are s. */
  lemma ExplodeSpec(s: seq<byte>)
    ensures |Explode(s)| == RuneCount(s)
    ensures Join(Explode(s), []) == s
    ensures forall i :: 0 <= i < |Explode(s)| ==> 1 <= |Explode(s)[i]| <= UtfMax
  {
    ExplodeCount(s);
    ExplodeJoin(s);
    ExplodeSizes(s);
  }

  lemma {:induction false} ExplodeCount(s: seq<byte>)
    ensures |Explode(s)| == RuneCount(s)
    decreases |s|
  {
    if s != [] {
      var w := DecodeRune(s).1;
      ExplodeCount(s[w..]);
      ExplodeStep(s, w, Explode(s[w..]));
    }
  }

  lemma {:induction false} ExplodeJoin(s: seq<byte>)
    ensures Join(Explode(s), []) == s
    decreases |s|
  {
    if s != [] {
      var w := DecodeRune(s).1;
      var rest := Explode(s[w..]);
      ExplodeJoin(s[w..]);
      ExplodeStep(s, w, rest);
      JoinFront(s, w, rest);
    }
  }

  /** Putting the first w bytes in front of pieces that spell out the rest
      spells out s. */
  lemma JoinFront(s: seq<byte>, w: nat, rest: seq<seq<byte>>)
    requires w <= |s| && Join(rest, []) == s[w..]
    ensures Join([s[..w]] + rest, []) == s
  {
    if rest != [] {
      JoinCons(s[..w], rest, []);
      assert s == s[..w] + s[w..];
    } else {
      assert [s[..w]] + rest == [s[..w]];
    }
  }

  lemma {:induction false} ExplodeSizes(s: seq<byte>)
    ensures forall i :: 0 <= i < |Explode(s)| ==> 1 <= |Explode(s)[i]| <= UtfMax
    decreases |s|
  {
    if s != [] {
      var w := DecodeRune(s).1;
      var rest := Explode(s[w..]);
      ExplodeSizes(s[w..]);
      ExplodeStep(s, w, rest);
      forall i | 0 < i < |Explode(s)| ensures 1 <= |Explode(s)[i]| <= UtfMax {
        assert Explode(s)[i] == rest[i - 1];
      }
    }
  }

  /** The first piece is the first rune, and one rune fewer remains. */
  lemma ExplodeStep(s: seq<byte>, w: nat, rest: seq<seq<byte>>)
    requires s != [] && w == DecodeRune(s).1 && rest == Explode(s[w..])
    ensures 1 <= w <= UtfMax && w <= |s| && s == s[..w] + s[w..]
    ensures Explode(s) == [s[..w]] + rest && |Explode(s)| == 1 + |rest|
    ensures RuneCount(s) == 1 + RuneCount(s[w..])
  {
  }

  /** Piece i is the first rune of what the pieces from i on spell out. */
  predicate FirstRunePiece(parts: seq<seq<byte>>, i: int)
    requires 0 <= i < |parts|
  {
    var r := Join(parts[i..], []);
    r != [] && parts[i] == r[..DecodeRune(r).1]
  }

  /** Each piece of the empty-separator split is exactly the bytes of the
      rune that decoding forward finds at its start. */
  lemma {:induction false} ExplodeRunes(s: seq<byte>)
    ensures forall i :: 0 <= i < |Explode(s)| ==> FirstRunePiece(Explode(s), i)
    decreases |s|
  {
    if s != [] {
      var parts := Explode(s);
      var w := DecodeRune(s).1;
      var rest := Explode(s[w..]);
      assert parts == [s[..w]] + rest;
      ExplodeRunes(s[w..]);
      ExplodeSpec(s);
      assert parts[0..] == parts;
      forall i | 0 < i < |parts| ensures FirstRunePiece(parts, i) {
        assert parts[i..] == rest[i - 1..];
        assert FirstRunePiece(rest, i - 1);
      }
    }
  }

  /** The pieces are determined: any list of pieces that joins back to s and
      in which each piece is the first rune of what follows is the split of s
      by the empty separator. */
  lemma {:induction false} ExplodeUnique(s: seq<byte>, parts: seq<seq<byte>>)
    requires Join(parts, []) == s
    requires forall i :: 0 <= i < |parts| ==> FirstRunePiece(parts, i)
    ensures parts == Explode(s)
    decreases |parts|
  {
    if |parts| > 0 {
      var tail := parts[1..];
      assert parts[0..] == parts;
      assert FirstRunePiece(parts, 0);
      var w := DecodeRune(s).1;
      assert parts[0] == s[..w];
      if |tail| > 0 {
        assert parts == [parts[0]] + tail;
        JoinCons(parts[0], tail, []);
      }
      assert Join(tail, []) == s[w..];
      forall i | 0 <= i < |tail| ensures FirstRunePiece(tail, i) {
        assert tail[i..] == parts[i + 1..];
        assert FirstRunePiece(parts, i + 1);
      }
      ExplodeUnique(s[w..], tail);
    }
  }

  /** strings.Split: the pieces of s around every non-overlapping occurrence of
      sep, or one piece per rune when sep is empty. */
  function Split(s: seq<byte>, sep: seq<byte>): (parts: seq<seq<byte>>)
    ensures |sep| > 0 ==> 0 < |parts| <= |s| + 1
    ensures |sep| == 0 ==> |parts| <= |s| && (parts == [] <==> s == [])
  {
    if |sep| == 0 then Explode(s) else SplitPieces(s, sep)
  }

  /** Joining the pieces with the separator gives back the text, and there is
      one more piece than there are occurrences of a non-empty separator. */
  lemma SplitJoin(s: seq<byte>, sep: seq<byte>)
    ensures Join(Split(s, sep), sep) == s
    ensures |sep| > 0 ==> |Split(s, sep)| == Count(s, sep) + 1
    ensures |sep| == 0 ==> |Split(s, sep)| == Count(s, sep) - 1
    ensures |sep| > 0 ==> forall i :: 0 <= i < |Split(s, sep)| ==> Index(Split(s, sep)[i], sep) == -1
    ensures |sep| > 0 ==> forall i :: 0 <= i < |Split(s, sep)| - 1 ==>
                            Index(Split(s, sep)[i] + sep, sep) == |Split(s, sep)[i]|
    ensures |sep| == 0 ==> forall i :: 0 <= i < |Split(s, sep)| ==> FirstRunePiece(Split(s, sep), i)
  {
    if |sep| == 0 {
      var parts := Explode(s);
      ExplodeSpec(s);
      ExplodeRunes(s);
      assert Join(parts, sep) == Join(parts, []);
    } else {
      SplitPiecesCount(s, sep);
      SplitPiecesJoin(s, sep);
      SplitPiecesNoSep(s, sep);
      SplitPiecesFirstCut(s, sep);
    }
  }

  /** strings.HasPrefix. */
  predicate HasPrefix(s: seq<byte>, prefix: seq<byte>) {
    |prefix| <= |s| && s[..|prefix|] == prefix
  }

  /** strings.HasSuffix. */
  predicate HasSuffix(s: seq<byte>, suffix: seq<byte>) {
    |suffix| <= |s| && s[|s| - |suffix|..] == suffix
  }

  /** s starts with t exactly when the first occurrence of t is at offset 0. */
  lemma PrefixIsFirstMatch(s: seq<byte>, t: seq<byte>)
    ensures HasPrefix(s, t) <==> Index(s, t) == 0
  {
    if HasPrefix(s, t) {
      assert MatchesAt(s, t, 0);
    }
  }

  /** s ends with t exactly when the last occurrence of t ends at |s|. */
  lemma SuffixIsLastMatch(s: seq<byte>, t: seq<byte>)
    ensures HasSuffix(s, t) <==> |t| <= |s| && LastIndex(s, t) == |s| - |t|
  {
    if HasSuffix(s, t) {
      assert MatchesAt(s, t, |s| - |t|);
    }
  }

  /** Every rune of s, decoding forward, satisfies f. */
  predicate AllRunes(s: seq<byte>, f: int -> bool)
    decreases |s|
  {
    s == [] || (var d := DecodeRune(s); f(d.0) && AllRunes(s[d.1..], f))
  }

  lemma {:induction false} AllRunesAppend(u: seq<byte>, v: seq<byte>, f: int -> bool)
    requires !f(RuneError) && AllRunes(u, f) && AllRunes(v, f)
    ensures AllRunes(u + v, f)
    decreases |u|
  {
    if u == [] {
      assert u + v == v;
    } else {
      var d := DecodeRune(u);
      DecodeRuneAppend(u, v);
      assert (u + v)[d.1..] == u[d.1..] + v;
      AllRunesAppend(u[d.1..], v, f);
    }
  }

  lemma SliceConcat(s: seq<byte>, a: nat, b: nat, c: nat)
    requires a <= b <= c <= |s|
    ensures s[a..b] + s[b..c] == s[a..c]
  {
  }

  /** Two adjacent runs of runes that satisfy f form one. */
  lemma AllRunesSplice(s: seq<byte>, f: int -> bool, a: nat, b: nat, c: nat)
    requires !f(RuneError) && a <= b <= c <= |s|
    requires AllRunes(s[a..b], f) && AllRunes(s[b..c], f)
    ensures AllRunes(s[a..c], f)
  {
    SliceConcat(s, a, b, c);
    AllRunesAppend(s[a..b], s[b..c], f);
  }

  /** A rune that satisfies f, followed by a run of such runes, starts a run
      of them. */
  lemma AllRunesStep(s: seq<byte>, f: int -> bool, i: nat, w: nat, e: nat)
    requires !f(RuneError) && i < e <= |s|
    requires f(DecodeRune(s[i..]).0) && w == DecodeRune(s[i..]).1
    requires i + w <= e && AllRunes(s[i + w..e], f)
    ensures AllRunes(s[i..e], f)
  {
    DecodeRuneTake(s[i..], e - i);
    assert s[i..][..e - i] == s[i..e];
    assert s[i..e][w..] == s[i + w..e];
  }

  /** Go's indexFunc(s, f, false), resumed at the rune boundary i: decoding
      forward, the offset of the first rune that f rejects, or -1. */
  function FirstRuneNot(s: seq<byte>, f: int -> bool, i: nat): (j: int)
    requires i <= |s|
    ensures j == -1 || i <= j < |s|
    decreases |s| - i
  {
    if i == |s| then -1
    else
      var d := DecodeRune(s[i..]);
      if !f(d.0) then i else FirstRuneNot(s, f, i + d.1)
  }

  /** Where TrimLeftFunc cuts s[i..]. */
  function TrimLeftStart(s: seq<byte>, f: int -> bool, i: nat): (a: nat)
    requires i <= |s|
    ensures i <= a <= |s|
  {
    var j := FirstRuneNot(s, f, i);
    if j == -1 then |s| else j
  }

  /** The forward scan from i passes only runes that f accepts and stops, at
      a, at a rune that f rejects. */
  lemma {:induction false} FirstRuneNotSpec(s: seq<byte>, f: int -> bool, i: nat, a: nat)
    requires !f(RuneError) && i <= |s| && a == TrimLeftStart(s, f, i)
    ensures i <= a <= |s| && AllRunes(s[i..a], f)
    ensures a < |s| ==> !f(DecodeRune(s[a..]).0)
    decreases |s| - i
  {
    if i == |s| || !f(DecodeRune(s[i..]).0) {
      FirstRuneNotStop(s, f, i, a);
    } else {
      var w := DecodeRune(s[i..]).1;
      FirstRuneNotStep(s, f, i, w, a);
      FirstRuneNotSpec(s, f, i + w, a);
      AllRunesStep(s, f, i, w, a);
    }
  }

  /** At the end of s, or at a rune that f rejects, the forward scan stops at
      once. */
  lemma FirstRuneNotStop(s: seq<byte>, f: int -> bool, i: nat, a: nat)
    requires i <= |s| && a == TrimLeftStart(s, f, i)
    requires i == |s| || !f(DecodeRune(s[i..]).0)
    ensures a == i && s[i..a] == []
  {
  }

  /** The forward scan passes a rune of width w that f accepts. */
  lemma FirstRuneNotStep(s: seq<byte>, f: int -> bool, i: nat, w: nat, a: nat)
    requires i < |s| && f(DecodeRune(s[i..]).0) && w == DecodeRune(s[i..]).1
    requires a == TrimLeftStart(s, f, i)
    ensures 1 <= w && i + w <= |s| && a == TrimLeftStart(s, f, i + w)
  {
  }

  /** strings.TrimLeftFunc: drop the leading runes that f accepts. */
  function TrimLeftFunc(s: seq<byte>, f: int -> bool): (r: seq<byte>)
    ensures |r| <= |s| && r == s[|s| - |r|..]
  {
    s[TrimLeftStart(s, f, 0)..]
  }

  /** Go's lastIndexFunc(s[..i], f, false): decoding backwards from i, the
      offset of the last rune that f rejects, or -1. */
  function LastRuneNot(s: seq<byte>, f: int -> bool, i: nat): (j: int)
    requires i <= |s|
    ensures -1 <= j < i
    decreases i
  {
    if i == 0 then -1
    else
      var d := DecodeLastRune(s[..i]);
      if !f(d.0) then i - d.1 else LastRuneNot(s, f, i - d.1)
  }

  /** The end of the rune at j, as TrimRightFunc computes it: one byte for
      ASCII, otherwise the width of a forward decode. */
  function RuneEnd(s: seq<byte>, j: nat): (e: nat)
    requires j < |s|
    ensures j < e <= |s|
  {
    if s[j] >= RuneSelf then j + DecodeRune(s[j..]).1 else j + 1
  }

  /** Where TrimRightFunc cuts s[..i]. */
  function TrimRightEnd(s: seq<byte>, f: int -> bool, i: nat): (e: nat)
    requires i <= |s|
  {
    var j := LastRuneNot(s, f, i);
    if j >= 0 then RuneEnd(s, j) else 0
  }

  /** Decoding backwards from a rune boundary i, the rune found ends at i in
      the forward sense too: RuneEnd at its start gives back i. */
  lemma LastRuneEnd(s: seq<byte>, i: nat)
    requires 0 < i <= |s|
    requires i == |s| || IsRuneStart(s[i])
    ensures RuneEnd(s, i - DecodeLastRune(s[..i]).1) == i
  {
    var d := DecodeLastRune(s[..i]);
    if IsError(d) {
      ErrorRuneEnd(s, i - 1, i);
    } else {
      WellFormedRuneEnd(s, i - d.1, i, d);
    }
  }

  /** A single byte followed by a rune boundary ends there. */
  lemma ErrorRuneEnd(s: seq<byte>, k: nat, i: nat)
    requires k + 1 == i <= |s|
    requires i == |s| || IsRuneStart(s[i])
    ensures RuneEnd(s, k) == i
  {
    if s[k] >= RuneSelf && i < |s| {
      assert s[k..][1] == s[i];
    }
  }

  /** A well-formed rune s[k..i] decodes to the same width inside s. */
  lemma WellFormedRuneEnd(s: seq<byte>, k: nat, i: nat, d: (int, nat))
    requires k < i <= |s|
    requires d == DecodeLastRune(s[..i]) && !IsError(d) && k == i - d.1
    ensures RuneEnd(s, k) == i
  {
    assert s[..i][k..] == s[k..i];
    if s[k] >= RuneSelf {
      assert s[k..] == s[k..i] + s[i..];
      DecodeRuneAppend(s[k..i], s[i..]);
    }
  }

  /** A rune that f accepts, found decoding backwards, is a well-formed
      encoding (f rejects the error rune): it starts at a rune boundary and
      decoding it forward gives a run of runes that f accepts. */
  lemma LastRuneAccepted(s: seq<byte>, f: int -> bool, i: nat)
    requires !f(RuneError) && 0 < i <= |s|
    requires f(DecodeLastRune(s[..i]).0)
    ensures IsRuneStart(s[i - DecodeLastRune(s[..i]).1])
    ensures AllRunes(s[i - DecodeLastRune(s[..i]).1..i], f)
  {
    var d := DecodeLastRune(s[..i]);
    var k := i - d.1;
    assert s[..i][k..] == s[k..i];
    assert DecodeRune(s[k..i]) == d;
    assert s[k..i][d.1..] == [];
  }

  /** One step of the backward scan past a rune that f accepts. */
  lemma LastRuneNotStep(s: seq<byte>, f: int -> bool, i: nat)
    requires 0 < i <= |s|
    requires f(DecodeLastRune(s[..i]).0)
    ensures TrimRightEnd(s, f, i) == TrimRightEnd(s, f, i - DecodeLastRune(s[..i]).1)
  {
  }

  /** The backward scan stops at once at a rune that f rejects. */
  lemma LastRuneNotStop(s: seq<byte>, f: int -> bool, i: nat)
    requires 0 < i <= |s|
    requires i == |s| || IsRuneStart(s[i])
    requires !f(DecodeLastRune(s[..i]).0)
    ensures TrimRightEnd(s, f, i) == i
  {
    LastRuneEnd(s, i);
  }

  /** What the scan from the start k of a trailing rune that f accepts
      leaves holds from its end i as well. */
  lemma LastRuneNotPast(s: seq<byte>, f: int -> bool, i: nat, k: nat)
    requires !f(RuneError) && 0 < i <= |s|
    requires f(DecodeLastRune(s[..i]).0)
    requires k == i - DecodeLastRune(s[..i]).1
    requires TrimRightEnd(s, f, k) <= k && AllRunes(s[TrimRightEnd(s, f, k)..k], f)
    ensures TrimRightEnd(s, f, i) == TrimRightEnd(s, f, k)
    ensures AllRunes(s[TrimRightEnd(s, f, i)..i], f)
  {
    LastRuneNotStep(s, f, i);
    LastRuneAccepted(s, f, i);
    AllRunesSplice(s, f, TrimRightEnd(s, f, k), k, i);
  }

  /** When i is at a rune boundary, the backward scan stops at a rune that
      really ends where the scan found it: f accepts every rune after it and
      rejects the last rune kept. */
  lemma {:induction false} LastRuneNotSpec(s: seq<byte>, f: int -> bool, i: nat)
    requires !f(RuneError) && i <= |s|
    requires i == |s| || IsRuneStart(s[i])
    ensures TrimRightEnd(s, f, i) <= i
    ensures AllRunes(s[TrimRightEnd(s, f, i)..i], f)
    ensures TrimRightEnd(s, f, i) > 0 ==> !f(DecodeLastRune(s[..TrimRightEnd(s, f, i)]).0)
    decreases i
  {
    if i == 0 {
      assert s[0..0] == [];
    } else if !f(DecodeLastRune(s[..i]).0) {
      LastRuneNotStop(s, f, i);
      assert s[i..i] == [];
    } else {
      var k := i - DecodeLastRune(s[..i]).1;
      LastRuneAccepted(s, f, i);
      LastRuneNotSpec(s, f, k);
      LastRuneNotPast(s, f, i, k);
    }
  }

  /** strings.TrimRightFunc: drop the trailing runes that f accepts, decoding
      backwards. */
  function TrimRightFunc(s: seq<byte>, f: int -> bool): (r: seq<byte>)
    ensures |r| <= |s| && r == s[..|r|]
  {
    s[..TrimRightEnd(s, f, |s|)]
  }

  /** What TrimRightFunc keeps is a prefix, f accepts every rune it drops,
      and f rejects the last rune it keeps. */
  lemma TrimRightFuncSpec(s: seq<byte>, f: int -> bool)
    requires !f(RuneError)
    ensures var r := TrimRightFunc(s, f);
            r == s[..|r|] && AllRunes(s[|r|..], f) &&
            (r == [] || !f(DecodeLastRune(r).0))
  {
    LastRuneNotSpec(s, f, |s|);
    var e := TrimRightEnd(s, f, |s|);
    assert s[e..|s|] == s[e..];
  }

  /** strings.TrimFunc: what is left after dropping the leading and then the
      trailing runes that f accepts. */
  function TrimFunc(s: seq<byte>, f: int -> bool): (r: seq<byte>)
    ensures |r| <= |s|
  {
    TrimRightFunc(TrimLeftFunc(s, f), f)
  }

  /** What TrimLeftFunc keeps is a suffix and f accepts every rune it drops. */
  lemma TrimLeftFuncSpec(s: seq<byte>, f: int -> bool)
    requires !f(RuneError)
    ensures var a := TrimLeftStart(s, f, 0);
            TrimLeftFunc(s, f) == s[a..] && AllRunes(s[..a], f)
  {
    FirstRuneNotSpec(s, f, 0, TrimLeftStart(s, f, 0));
    assert s[0..TrimLeftStart(s, f, 0)] == s[..TrimLeftStart(s, f, 0)];
  }

  /** A prefix r of the suffix t == s[a..] is the infix s[a..a + |r|], and
      what follows it in t is what follows it in s. */
  lemma PrefixOfSuffix(s: seq<byte>, t: seq<byte>, r: seq<byte>, a: nat, f: int -> bool)
    requires a <= |s| && t == s[a..] && |r| <= |t| && r == t[..|r|]
    ensures a + |r| <= |s| && r == s[a..a + |r|]
    ensures AllRunes(t[|r|..], f) ==> AllRunes(s[a + |r|..], f)
  {
    assert t[|r|..] == s[a + |r|..];
  }

  /** TrimFunc keeps the infix s[a..a + |r|], where a is where the left trim
      cuts, and f accepts every rune it drops at either end. */
  lemma TrimFuncInfix(s: seq<byte>, f: int -> bool, a: nat, r: seq<byte>)
    requires !f(RuneError) && a == TrimLeftStart(s, f, 0) && r == TrimFunc(s, f)
    ensures a + |r| <= |s| && r == s[a..a + |r|]
    ensures AllRunes(s[..a], f) && AllRunes(s[a + |r|..], f)
  {
    var t := TrimLeftFunc(s, f);
    assert r == TrimRightFunc(t, f);
    TrimLeftFuncSpec(s, f);
    TrimRightFuncSpec(t, f);
    PrefixOfSuffix(s, t, r, a, f);
  }

  /** Cutting the end off text whose first rune f rejects leaves text whose
      first rune f rejects. */
  lemma PrefixFirstRuneNot(t: seq<byte>, f: int -> bool, e: nat)
    requires !f(RuneError) && 0 < e <= |t| && !f(DecodeRune(t).0)
    ensures !f(DecodeRune(t[..e]).0)
  {
    DecodeRunePrefix(t, e);
  }

  /** f rejects both the first and the last rune of what TrimFunc keeps. */
  lemma TrimFuncEnds(s: seq<byte>, f: int -> bool)
    requires !f(RuneError)
    ensures var r := TrimFunc(s, f);
            r == [] || (!f(DecodeRune(r).0) && !f(DecodeLastRune(r).0))
  {
    var t := TrimLeftFunc(s, f);
    var e := TrimRightEnd(t, f, |t|);
    assert TrimFunc(s, f) == t[..e];
    FirstRuneNotSpec(s, f, 0, TrimLeftStart(s, f, 0));
    TrimRightFuncSpec(t, f);
    if e > 0 {
      PrefixFirstRuneNot(t, f, e);
    }
  }

  /** strings.TrimSpace: TrimFunc with unicode.IsSpace. */
  function TrimSpace(s: seq<byte>): (r: seq<byte>)
    ensures |r| <= |s|
  {
    TrimFunc(s, Unicode.IsSpace)
  }

  /** The error rune U+FFFD is not white space. */
  lemma RuneErrorNotSpace()
    ensures !Unicode.IsSpace(RuneError)
  {
  }

  /** TrimSpace keeps one infix of the text, s[a..a + |r|] where a is where
      the left trim cuts, and everything it drops at either end is
      white space. */
  lemma TrimSpaceInfix(s: seq<byte>, a: nat, r: seq<byte>)
    requires a == TrimLeftStart(s, Unicode.IsSpace, 0) && r == TrimSpace(s)
    ensures a + |r| <= |s| && r == s[a..a + |r|]
    ensures AllRunes(s[..a], Unicode.IsSpace) && AllRunes(s[a + |r|..], Unicode.IsSpace)
  {
    RuneErrorNotSpace();
    TrimFuncInfix(s, Unicode.IsSpace, a, r);
  }

  /** What TrimSpace keeps neither starts nor ends with a white-space rune. */
  lemma TrimSpaceEnds(s: seq<byte>)
    ensures var r := TrimSpace(s);
            r == [] || (!Unicode.IsSpace(DecodeRune(r).0) && !Unicode.IsSpace(DecodeLastRune(r).0))
  {
    RuneErrorNotSpace();
    TrimFuncEnds(s, Unicode.IsSpace);
  }
}
