/**
 * The line codec of the note file: split_by_delim, which cuts a C string in
 * place at the first occurrence of a delimiter, the decoding of one line read
 * by fgets (the body of the load loop of slurp_sig_dates) and the
 * `"%02u;%s\n"` encoding of save_new_sig_dates.
 */
module LineCodec {
  import opened Wrappers
  import opened CString

  // ---- Splitting on first occurrences ----

  /**
   * The n pieces of s: each of the first n - 1 ends at the first occurrence of
   * d after the previous one; the last keeps every later d. None when fewer
   * than n - 1 occurrences exist.
   */
  function Split(s: string, d: char, n: nat): (r: Option<seq<string>>)
    requires n >= 1
    ensures r.Some? ==> |r.value| == n
    decreases n
  {
    if n == 1 then Some([s])
    else match IndexOf(s, d)
      case None => None
      case Some(i) => Prepend(s[..i], Split(s[i + 1..], d, n - 1))
  }

  function Prepend(x: string, o: Option<seq<string>>): (r: Option<seq<string>>)
    ensures r.Some? <==> o.Some?
    ensures r.Some? ==> r.value == [x] + o.value
  {
    match o
    case None => None
    case Some(q) => Some([x] + q)
  }

  /** Number of occurrences of d in s. */
  function Count(s: string, d: char): (r: nat) {
    if |s| == 0 then 0 else (if s[0] == d then 1 else 0) + Count(s[1..], d)
  }

  /** The inverse of Split: the pieces glued back together with d between them. */
  function Join(parts: seq<string>, d: char): (r: string)
    requires |parts| >= 1
  {
    if |parts| == 1 then parts[0] else parts[0] + [d] + Join(parts[1..], d)
  }

  /** Splitting into n pieces succeeds exactly when s holds at least n - 1 delimiters. */
  lemma {:induction false} SplitSucceedsIff(s: string, d: char, n: nat)
    requires n >= 1
    ensures Split(s, d, n).Some? <==> Count(s, d) >= n - 1
    decreases n
  {
    if n > 1 {
      match IndexOf(s, d)
      case None =>
        CountAbsent(s, d);
      case Some(i) =>
        CountAt(s, d, i);
        SplitSucceedsIff(s[i + 1..], d, n - 1);
    }
  }

  lemma {:induction false} CountAbsent(s: string, d: char)
    requires d !in s
    ensures Count(s, d) == 0
  {
    if |s| > 0 {
      CountAbsent(s[1..], d);
    }
  }

  /** With i the first occurrence of d, the occurrences of s are that one plus those after it. */
  lemma {:induction false} CountAt(s: string, d: char, i: nat)
    requires i < |s| && s[i] == d && d !in s[..i]
    ensures Count(s, d) == 1 + Count(s[i + 1..], d)
  {
    if i > 0 {
      assert s[1..][..i - 1] == s[1..i];
      CountAt(s[1..], d, i - 1);
      assert s[1..][i..] == s[i + 1..];
    }
  }

  /** What Split returns glues back to s, and none of its first n - 1 pieces contains d. */
  lemma {:induction false} SplitThenJoin(s: string, d: char, n: nat)
    requires n >= 1 && Split(s, d, n).Some?
    ensures Join(Split(s, d, n).value, d) == s
    ensures forall k :: 0 <= k < n - 1 ==> d !in Split(s, d, n).value[k]
  {
    SplitJoins(s, d, n);
    SplitPiecesFree(s, d, n);
  }

  lemma {:induction false} SplitJoins(s: string, d: char, n: nat)
    requires n >= 1 && Split(s, d, n).Some?
    ensures Join(Split(s, d, n).value, d) == s
    decreases n
  {
    if n > 1 {
      var i := IndexOf(s, d).value;
      var t := s[i + 1..];
      SplitUnfold(s, d, n, i);
      SplitJoins(t, d, n - 1);
      JoinCons(s, i, d, Split(t, d, n - 1).value);
    }
  }

  lemma {:induction false} SplitPiecesFree(s: string, d: char, n: nat)
    requires n >= 1 && Split(s, d, n).Some?
    ensures forall k :: 0 <= k < n - 1 ==> d !in Split(s, d, n).value[k]
    decreases n
  {
    if n > 1 {
      var i := IndexOf(s, d).value;
      var t := s[i + 1..];
      SplitUnfold(s, d, n, i);
      SplitPiecesFree(t, d, n - 1);
      var p := Split(s, d, n).value;
      var q := Split(t, d, n - 1).value;
      assert p == [s[..i]] + q;
      forall k | 1 <= k < n - 1
        ensures d !in p[k]
      {
        assert p[k] == q[k - 1];
      }
    }
  }

  /** Joining the text before a delimiter at i onto pieces that join to the text after it gives s back. */
  lemma JoinCons(s: string, i: nat, d: char, q: seq<string>)
    requires i < |s| && s[i] == d && |q| >= 1 && Join(q, d) == s[i + 1..]
    ensures Join([s[..i]] + q, d) == s
  {
    assert ([s[..i]] + q)[1..] == q;
    assert s == s[..i] + [d] + s[i + 1..];
  }

  /** Conversely, n pieces whose first n - 1 are free of d are exactly what splitting their join returns. */
  lemma {:induction false} JoinThenSplit(parts: seq<string>, d: char)
    requires |parts| >= 1
    requires forall k :: 0 <= k < |parts| - 1 ==> d !in parts[k]
    ensures Split(Join(parts, d), d, |parts|) == Some(parts)
    decreases |parts|
  {
    if |parts| > 1 {
      var rest := Join(parts[1..], d);
      var s := parts[0] + [d] + rest;
      IndexOfAfter(parts[0], d, [d] + rest);
      assert parts[0] + ([d] + rest) == s;
      assert s[..|parts[0]|] == parts[0];
      assert s[|parts[0]| + 1..] == rest;
      JoinThenSplit(parts[1..], d);
      assert Join(parts, d) == s;
      SplitUnfold(s, d, |parts|, |parts[0]|);
      assert Split(s[|parts[0]| + 1..], d, |parts| - 1) == Some(parts[1..]);
      assert Split(s, d, |parts|) == Prepend(parts[0], Some(parts[1..]));
      assert [parts[0]] + parts[1..] == parts;
    } else {
      assert [parts[0]] == parts;
    }
  }

  /** One step of Split at a known first occurrence. */
  lemma SplitUnfold(s: string, d: char, n: nat, i: nat)
    requires n > 1 && IndexOf(s, d) == Some(i)
    ensures i < |s| && Split(s, d, n) == Prepend(s[..i], Split(s[i + 1..], d, n - 1))
  {
  }

  /** `"05;a;b"` split in two on `;` gives `"05"` and `"a;b"`. */
  lemma SplitExample()
    ensures Split("05;a;b", ';', 2) == Some(["05", "a;b"])
  {
    JoinThenSplit(["05", "a;b"], ';');
    assert Join(["05", "a;b"], ';') == "05;a;b";
  }

  // ---- split_by_delim on a buffer ----

  /** Positions split_by_delim overwrote with NUL: one before the start of each piece after the first. */
  function Cuts(linedata: seq<nat>): (r: set<int>) {
    set k | 1 <= k < |linedata| :: linedata[k] as int - 1
  }

  /**
   * split_by_delim(src, delim, linedata, n): linedata[0] is the start of the
   * buffer; for each further piece the first delim of the previous piece is
   * overwritten with NUL and the piece starts just after it. Stops with 0 (ok
   * false) at the first piece without delim. The returned sequence holds the
   * linedata entries that were set.
   */
  method SplitByDelim(src: array<char>, delim: char, n: nat) returns (ok: bool, linedata: seq<nat>)
    requires delim != NUL && n >= 1
    modifies src
    ensures ok <==> Split(CStr(old(src[..]), 0), delim, n).Some?
    ensures ok ==> |linedata| == n
    ensures ok ==> forall k :: 0 <= k < n ==> CStr(src[..], linedata[k]) == Split(CStr(old(src[..]), 0), delim, n).value[k]
    ensures 1 <= |linedata| <= n && linedata[0] == 0
    ensures DelimitedAt(old(src[..]), delim, linedata)
    ensures forall i :: 0 <= i < src.Length ==> src[i] == if i in Cuts(linedata) then NUL else old(src[i])
    ensures !ok && n == 2 ==> src[..] == old(src[..])
  {
    ghost var orig := src[..];
    ghost var pieces: seq<string> := [];
    linedata := [0];
    SplitInvInit(orig, delim, n);
    while |linedata| < n
      invariant src.Length == |orig|
      invariant SplitInv(orig, src[..], delim, n, linedata, pieces)
      decreases n - |linedata|
    {
      var found;
      found, linedata, pieces := CutNext(src, delim, n, orig, linedata, pieces);
      if !found {
        return false, linedata;
      }
    }
    ok := true;
    SplitInvDone(orig, src[..], delim, n, linedata, pieces);
  }

  /**
   * One round of the loop of split_by_delim: find the delimiter in the last
   * piece, overwrite it with NUL and record the start of the next piece, or
   * report that there is none and leave the buffer as it is.
   */
  method CutNext(src: array<char>, delim: char, n: nat, ghost orig: seq<char>, linedata: seq<nat>, ghost pieces: seq<string>)
    returns (found: bool, linedata': seq<nat>, ghost pieces': seq<string>)
    requires delim != NUL && n >= 1 && |linedata| < n && src.Length == |orig|
    requires SplitInv(orig, src[..], delim, n, linedata, pieces)
    modifies src
    ensures found ==> |linedata'| == |linedata| + 1 && SplitInv(orig, src[..], delim, n, linedata', pieces')
    ensures !found ==> linedata' == linedata && src[..] == old(src[..]) && SplitFailed(orig, src[..], delim, n, linedata)
  {
    var p := linedata[|linedata| - 1];
    SplitInvRest(orig, src[..], delim, n, linedata, pieces);
    var r := StrChr(src, p, delim);
    if r.None? {
      SplitInvFail(orig, src[..], delim, n, linedata, pieces);
      return false, linedata, pieces;
    }
    var i := r.value;
    SplitInvStep(orig, src[..], delim, n, linedata, pieces, i);
    ghost var cur := src[..];
    src[i] := NUL;
    assert src[..] == cur[i := NUL];
    found, linedata', pieces' := true, linedata + [i + 1], pieces + [CStr(orig, 0)[p..i]];
  }

  /** What split_by_delim leaves behind when it stops early. */
  ghost predicate SplitFailed(orig: seq<char>, cur: seq<char>, d: char, n: nat, linedata: seq<nat>)
    requires n >= 1
  {
    Split(CStr(orig, 0), d, n).None?
    && DelimitedAt(orig, d, linedata)
    && |cur| == |orig|
    && (forall i :: 0 <= i < |cur| ==> cur[i] == if i in Cuts(linedata) then NUL else orig[i])
    && (n == 2 ==> cur == orig)
  }

  /**
   * The piece starts recorded so far: the first is 0, they increase strictly,
   * none lies past the end len of the string, and each later one follows a
   * delimiter of the original buffer.
   */
  ghost predicate Starts(orig: seq<char>, len: nat, d: char, linedata: seq<nat>) {
    |linedata| >= 1 && linedata[0] == 0 && len <= |orig|
    && (forall k :: 0 <= k < |linedata| ==> linedata[k] <= len)
    && (forall a, b :: 0 <= a < b < |linedata| ==> linedata[a] < linedata[b])
    && DelimitedAt(orig, d, linedata)
  }

  /** Every piece after the first starts just after a delimiter of the original buffer. */
  ghost predicate DelimitedAt(orig: seq<char>, d: char, linedata: seq<nat>) {
    forall k :: 1 <= k < |linedata| ==> 1 <= linedata[k] <= |orig| && orig[linedata[k] - 1] == d
  }

  /** Piece k of s0 runs from the start of piece k to just before the start of piece k + 1. */
  ghost predicate PiecesOf(s0: string, pieces: seq<string>, linedata: seq<nat>) {
    |pieces| == |linedata| - 1
    && forall k {:trigger pieces[k]} :: 0 <= k < |pieces| && linedata[k] < linedata[k + 1] <= |s0| + 1 ==> pieces[k] == s0[linedata[k]..linedata[k + 1] - 1]
  }

  /** The pieces cut so far and the text after the last start join back to s0, and no cut piece holds d. */
  ghost predicate JoinsTo(s0: string, d: char, linedata: seq<nat>, pieces: seq<string>) {
    1 <= |linedata| && linedata[|linedata| - 1] <= |s0|
    && Join(pieces + [s0[linedata[|linedata| - 1]..]], d) == s0
    && forall k :: 0 <= k < |pieces| ==> d !in pieces[k]
  }

  /** The loop invariant of split_by_delim. */
  ghost predicate SplitInv(orig: seq<char>, cur: seq<char>, d: char, n: nat, linedata: seq<nat>, pieces: seq<string>)
    requires n >= 1
  {
    var s0 := CStr(orig, 0);
    Starts(orig, |s0|, d, linedata)
    && cur == CutAt(orig, linedata)
    && PiecesOf(s0, pieces, linedata)
    && |linedata| <= n
    && JoinsTo(s0, d, linedata, pieces)
  }

  /** The original buffer with NUL at every cut. */
  function CutAt(orig: seq<char>, linedata: seq<nat>): (r: seq<char>)
    ensures |r| == |orig|
    ensures forall i :: 0 <= i < |orig| ==> r[i] == if i in Cuts(linedata) then NUL else orig[i]
  {
    seq(|orig|, i requires 0 <= i < |orig| => if i in Cuts(linedata) then NUL else orig[i])
  }

  lemma SplitInvInit(orig: seq<char>, d: char, n: nat)
    requires n >= 1
    ensures SplitInv(orig, orig, d, n, [0], [])
  {
    var s0 := CStr(orig, 0);
    assert s0[0..] == s0;
    assert Cuts([0]) == {};
    assert orig == CutAt(orig, [0]);
    assert [] + [s0[0..]] == [s0];
  }

  /** The text still to be split is what the C string at the last piece's start reads. */
  lemma SplitInvRest(orig: seq<char>, cur: seq<char>, d: char, n: nat, linedata: seq<nat>, pieces: seq<string>)
    requires n >= 1 && SplitInv(orig, cur, d, n, linedata, pieces)
    ensures var p := linedata[|linedata| - 1];
            p <= |cur| && CStr(cur, p) == CStr(orig, 0)[p..]
  {
    PieceAt(cur, orig, linedata, |linedata| - 1);
  }

  lemma SplitInvFail(orig: seq<char>, cur: seq<char>, d: char, n: nat, linedata: seq<nat>, pieces: seq<string>)
    requires n >= 1 && SplitInv(orig, cur, d, n, linedata, pieces) && |linedata| < n
    requires IndexOf(CStr(orig, 0)[linedata[|linedata| - 1]..], d).None?
    ensures SplitFailed(orig, cur, d, n, linedata)
  {
    var s0 := CStr(orig, 0);
    var p := linedata[|linedata| - 1];
    var parts := pieces + [s0[p..]];
    assert forall k :: 0 <= k < |parts| ==> d !in parts[k];
    CountJoin(parts, d);
    SplitSucceedsIff(s0, d, n);
    if n == 2 {
      assert Cuts(linedata) == {};
    }
  }

  /** A round of the split loop that found its delimiter at i. */
  ghost predicate StepAt(orig: seq<char>, cur: seq<char>, d: char, n: nat, linedata: seq<nat>, pieces: seq<string>, i: nat)
    requires n >= 1
  {
    SplitInv(orig, cur, d, n, linedata, pieces) && |linedata| < n
    && var p := linedata[|linedata| - 1];
       var rest := CStr(orig, 0)[p..];
       IndexOf(rest, d).Some? && i == p + IndexOf(rest, d).value
  }

  /** Such a round keeps the invariant, with the buffer cut at i and the next piece starting after it. */
  lemma SplitInvStep(orig: seq<char>, cur: seq<char>, d: char, n: nat, linedata: seq<nat>, pieces: seq<string>, i: nat)
    requires n >= 1 && StepAt(orig, cur, d, n, linedata, pieces, i)
    ensures var p := linedata[|linedata| - 1];
            p <= i < |cur|
            && SplitInv(orig, cur[i := NUL], d, n, linedata + [i + 1], pieces + [CStr(orig, 0)[p..i]])
  {
    var s0 := CStr(orig, 0);
    StepStarts(orig, d, linedata, i);
    CutAtSnoc(orig, linedata, i);
    PiecesSnoc(s0, pieces, linedata, i, pieces + [s0[linedata[|linedata| - 1]..i]], linedata + [i + 1]);
    JoinsToStep(s0, d, linedata, pieces, i);
  }

  /** The delimiter found at i lies in the C string, and i + 1 is a further start. */
  lemma StepStarts(orig: seq<char>, d: char, linedata: seq<nat>, i: nat)
    requires Starts(orig, |CStr(orig, 0)|, d, linedata)
    requires var p := linedata[|linedata| - 1];
             var rest := CStr(orig, 0)[p..];
             IndexOf(rest, d).Some? && i == p + IndexOf(rest, d).value
    ensures linedata[|linedata| - 1] <= i < |CStr(orig, 0)| <= |orig|
    ensures Starts(orig, |CStr(orig, 0)|, d, linedata + [i + 1])
  {
    var s0 := CStr(orig, 0);
    assert s0[i] == d && orig[i] == d;
    StartsSnoc(orig, |s0|, d, linedata, i + 1);
  }

  lemma SplitInvDone(orig: seq<char>, cur: seq<char>, d: char, n: nat, linedata: seq<nat>, pieces: seq<string>)
    requires n >= 1 && SplitInv(orig, cur, d, n, linedata, pieces) && |linedata| == n
    ensures Split(CStr(orig, 0), d, n).Some?
    ensures forall k :: 0 <= k < n ==> CStr(cur, linedata[k]) == Split(CStr(orig, 0), d, n).value[k]
    ensures DelimitedAt(orig, d, linedata)
    ensures forall i :: 0 <= i < |cur| ==> cur[i] == if i in Cuts(linedata) then NUL else orig[i]
  {
    var s0 := CStr(orig, 0);
    var parts := pieces + [s0[linedata[n - 1]..]];
    SplitOfJoin(s0, d, linedata, pieces);
    PiecesRead(cur, orig, linedata, pieces);
  }

  /** Once every start is found, splitting s0 gives the cut pieces and the rest. */
  lemma SplitOfJoin(s0: string, d: char, linedata: seq<nat>, pieces: seq<string>)
    requires JoinsTo(s0, d, linedata, pieces) && |pieces| == |linedata| - 1
    ensures Split(s0, d, |linedata|) == Some(pieces + [s0[linedata[|linedata| - 1]..]])
  {
    var parts := pieces + [s0[linedata[|linedata| - 1]..]];
    assert forall k :: 0 <= k < |parts| - 1 ==> parts[k] == pieces[k];
    JoinThenSplit(parts, d);
  }

  /** Each piece read back from the cut buffer at its start is the cut piece, and the last one the rest. */
  lemma PiecesRead(cur: seq<char>, orig: seq<char>, linedata: seq<nat>, pieces: seq<string>)
    requires |cur| == |orig| && |linedata| >= 1 && linedata[0] == 0
    requires forall m :: 0 <= m < |linedata| ==> linedata[m] <= |CStr(orig, 0)|
    requires forall a, b :: 0 <= a < b < |linedata| ==> linedata[a] < linedata[b]
    requires forall i :: 0 <= i < |cur| ==> cur[i] == if i in Cuts(linedata) then NUL else orig[i]
    requires PiecesOf(CStr(orig, 0), pieces, linedata)
    ensures forall k :: 0 <= k < |linedata| ==>
              CStr(cur, linedata[k]) == (pieces + [CStr(orig, 0)[linedata[|linedata| - 1]..]])[k]
  {
    var s0 := CStr(orig, 0);
    var n := |linedata|;
    var parts := pieces + [s0[linedata[n - 1]..]];
    forall k | 0 <= k < n
      ensures CStr(cur, linedata[k]) == parts[k]
    {
      PieceAt(cur, orig, linedata, k);
      if k < n - 1 {
        assert linedata[k] < linedata[k + 1];
        assert parts[k] == pieces[k];
      } else {
        assert parts[k] == s0[linedata[k]..|s0|];
      }
    }
  }

  lemma StartsSnoc(orig: seq<char>, len: nat, d: char, linedata: seq<nat>, x: nat)
    requires Starts(orig, len, d, linedata)
    requires linedata[|linedata| - 1] < x <= len && orig[x - 1] == d
    ensures Starts(orig, len, d, linedata + [x])
  {
    var ld := linedata + [x];
    forall a, b | 0 <= a < b < |ld| ensures ld[a] < ld[b] {
      if b == |linedata| && a < |linedata| - 1 {
        assert linedata[a] < linedata[|linedata| - 1];
      }
    }
    forall k | 1 <= k < |ld| ensures 1 <= ld[k] <= |orig| && orig[ld[k] - 1] == d {
      if k < |linedata| {
        assert ld[k] == linedata[k];
      }
    }
  }

  lemma CutsSnoc(linedata: seq<nat>, x: nat)
    requires |linedata| >= 1
    ensures Cuts(linedata + [x]) == Cuts(linedata) + {x - 1}
  {
    var ld := linedata + [x];
    assert ld[|linedata|] == x;
    forall c | c in Cuts(ld) ensures c in Cuts(linedata) + {x - 1} {
      var k :| 1 <= k < |ld| && c == ld[k] as int - 1;
      if k < |linedata| {
        assert ld[k] == linedata[k];
      }
    }
    forall c | c in Cuts(linedata) ensures c in Cuts(ld) {
      var k :| 1 <= k < |linedata| && c == linedata[k] as int - 1;
      assert ld[k] == linedata[k];
    }
  }

  lemma CutAtSnoc(orig: seq<char>, linedata: seq<nat>, i: nat)
    requires |linedata| >= 1 && i < |orig|
    ensures CutAt(orig, linedata + [i + 1]) == CutAt(orig, linedata)[i := NUL]
  {
    CutsSnoc(linedata, i + 1);
  }

  lemma PiecesSnoc(s0: string, pieces: seq<string>, linedata: seq<nat>, i: nat, pc: seq<string>, ld: seq<nat>)
    requires |linedata| >= 1 && PiecesOf(s0, pieces, linedata) && linedata[|linedata| - 1] <= i <= |s0|
    requires pc == pieces + [s0[linedata[|linedata| - 1]..i]] && ld == linedata + [i + 1]
    ensures PiecesOf(s0, pc, ld)
  {
    forall k | 0 <= k < |pc| && ld[k] < ld[k + 1] <= |s0| + 1
      ensures pc[k] == s0[ld[k]..ld[k + 1] - 1]
    {
      if k < |pieces| {
        assert pc[k] == pieces[k] && ld[k] == linedata[k] && ld[k + 1] == linedata[k + 1];
      } else {
        assert ld[k] == linedata[|linedata| - 1] && ld[k + 1] - 1 == i;
        assert pc[k] == s0[linedata[|linedata| - 1]..i];
      }
    }
  }

  /** The relation carried past the first delimiter of the text after the last start, at i. */
  lemma JoinsToStep(s0: string, d: char, linedata: seq<nat>, pieces: seq<string>, i: nat)
    requires JoinsTo(s0, d, linedata, pieces)
    requires var p := linedata[|linedata| - 1];
             IndexOf(s0[p..], d).Some? && i == p + IndexOf(s0[p..], d).value
    ensures JoinsTo(s0, d, linedata + [i + 1], pieces + [s0[linedata[|linedata| - 1]..i]])
  {
    var p := linedata[|linedata| - 1];
    var rest := s0[p..];
    var a, b := s0[p..i], s0[i + 1..];
    assert rest[..i - p] == a;
    assert rest == a + [d] + b;
    JoinCut(pieces, a, b, d);
    assert (pieces + [a]) + [b] == pieces + [a, b];
    var ld := linedata + [i + 1];
    assert ld[|ld| - 1] == i + 1;
  }

  /** Cutting the last part at a d it holds leaves the join unchanged. */
  lemma {:induction false} JoinCut(ps: seq<string>, a: string, b: string, d: char)
    ensures Join(ps + [a, b], d) == Join(ps + [a + [d] + b], d)
    decreases |ps|
  {
    if |ps| == 0 {
      assert [a, b][1..] == [b];
      assert ps + [a, b] == [a, b] && ps + [a + [d] + b] == [a + [d] + b];
    } else {
      JoinCut(ps[1..], a, b, d);
      assert (ps + [a, b])[1..] == ps[1..] + [a, b];
      assert (ps + [a + [d] + b])[1..] == ps[1..] + [a + [d] + b];
    }
  }

  lemma {:induction false} CountAppend(a: string, b: string, d: char)
    ensures Count(a + b, d) == Count(a, d) + Count(b, d)
    decreases |a|
  {
    if |a| > 0 {
      CountAppend(a[1..], b, d);
      assert (a + b)[1..] == a[1..] + b;
    } else {
      assert a + b == b;
    }
  }

  /** Parts free of d joined with d hold one d per seam. */
  lemma {:induction false} CountJoin(ps: seq<string>, d: char)
    requires |ps| >= 1 && forall k :: 0 <= k < |ps| ==> d !in ps[k]
    ensures Count(Join(ps, d), d) == |ps| - 1
    decreases |ps|
  {
    CountAbsent(ps[0], d);
    if |ps| > 1 {
      CountJoin(ps[1..], d);
      CountAppend(ps[0] + [d], Join(ps[1..], d), d);
      CountAppend(ps[0], [d], d);
      assert Count([d], d) == 1 + Count([d][1..], d);
    }
  }

  /**
   * After the cuts, the C string at the start of piece k is the text of the
   * original string from there to the next cut (or to the original end).
   */
  lemma PieceAt(cur: seq<char>, orig: seq<char>, linedata: seq<nat>, k: nat)
    requires |cur| == |orig| && 0 <= k < |linedata| && linedata[0] == 0
    requires forall m :: 0 <= m < |linedata| ==> linedata[m] <= |CStr(orig, 0)|
    requires forall a, b :: 0 <= a < b < |linedata| ==> linedata[a] < linedata[b]
    requires forall i :: 0 <= i < |cur| ==> cur[i] == if i in Cuts(linedata) then NUL else orig[i]
    ensures var stop := if k + 1 < |linedata| then linedata[k + 1] - 1 else |CStr(orig, 0)|;
            linedata[k] <= stop && CStr(cur, linedata[k]) == CStr(orig, 0)[linedata[k]..stop]
  {
    var s0 := CStr(orig, 0);
    var start := linedata[k];
    var stop := if k + 1 < |linedata| then linedata[k + 1] - 1 else |s0|;
    NoCutInPiece(linedata, k, stop);
    forall i | start <= i < stop
      ensures cur[i] == s0[i] && cur[i] != NUL
    {
      assert orig[i] == s0[i];
    }
    if stop < |cur| && k + 1 < |linedata| {
      assert cur[stop] == NUL;
    }
    CStrSlice(cur, start, stop);
    SliceEq(cur, s0, start, stop);
  }

  /** No cut falls inside piece k, and the piece ends at a cut unless it is the last. */
  lemma NoCutInPiece(linedata: seq<nat>, k: nat, stop: int)
    requires 0 <= k < |linedata|
    requires forall a, b :: 0 <= a < b < |linedata| ==> linedata[a] < linedata[b]
    requires k + 1 < |linedata| ==> stop == linedata[k + 1] as int - 1
    ensures forall i :: linedata[k] <= i < stop ==> i !in Cuts(linedata)
    ensures k + 1 < |linedata| ==> stop in Cuts(linedata)
  {
    forall m | 1 <= m < |linedata|
      ensures linedata[m] as int - 1 < linedata[k] || linedata[m] as int - 1 >= stop
    {
      if m < k {
        assert linedata[m] < linedata[k];
      } else if k < m {
        assert linedata[k + 1] <= linedata[m] by {
          if k + 1 < m {
            assert linedata[k + 1] < linedata[m];
          }
        }
      }
    }
  }

  lemma SliceEq(a: seq<char>, b: seq<char>, lo: nat, hi: nat)
    requires lo <= hi <= |a| && hi <= |b|
    requires forall i :: lo <= i < hi ==> a[i] == b[i]
    ensures a[lo..hi] == b[lo..hi]
  {
  }

  // ---- One line of the note file ----

  /** MAX_NOTE_LEN and MAX_LINE_LEN = sizeof("XX;") + MAX_NOTE_LEN; the load buffer has one more byte. */
  const MaxNoteLen: nat := 255
  const MaxLineLen: nat := 4 + MaxNoteLen

  /** A decoded record: the day field converted to size_t, and the note text. */
  datatype Record = Record(day: nat, text: string)

  /** The line without one trailing newline. */
  function StripNewline(s: string): (r: string)
    ensures |s| > 0 && s[|s| - 1] == '\n' ==> s == r + "\n"
    ensures !(|s| > 0 && s[|s| - 1] == '\n') ==> r == s
  {
    if |s| > 0 && s[|s| - 1] == '\n' then s[..|s| - 1] else s
  }

  /**
   * What one pass of the load loop makes of a line: None for a line that is
   * skipped (blank, no `;`, or a day field with characters after the number).
   */
  function Decode(line: string): (r: Option<Record>)
    ensures r.Some? ==> |CStr(line, 0)| > 0 && CStr(line, 0)[0] != '\n'
    ensures r.Some? ==> ';' in CStr(line, 0) && |r.value.text| < |CStr(line, 0)|
    ensures r.Some? ==> NUL !in r.value.text && r.value.day <= SizeMax
    ensures r.Some? && IsLine(line) ==> '\n' !in r.value.text
  {
    var s := CStr(line, 0);
    if |s| == 0 || s[0] == '\n' then None
    else match Split(StripNewline(s), ';', 2)
      case None => None
      case Some(parts) =>
        SplitInTwo(StripNewline(s), parts);
        DecodedText(line, parts);
        var p := StrToL(parts[0]);
        if p.end < |parts[0]| then None else Some(Record(SizeT(p.value), parts[1]))
  }

  /**
   * One read of fgets into the buffer of MaxLineLen + 1 characters: at most
   * MaxLineLen characters, a newline only as the last of them.
   */
  predicate IsLine(line: string) {
    |line| <= MaxLineLen && (|line| > 0 ==> '\n' !in line[..|line| - 1])
  }

  /**
   * The successive reads of fgets over one file: each is a non-empty line,
   * and every read but the last stops at its newline or fills the buffer.
   */
  predicate FileReads(lines: seq<string>) {
    forall k :: 0 <= k < |lines| ==> IsRead(lines[k], k == |lines| - 1)
  }

  /** One fgets read; unless it is the last of the file, it ends at a newline or fills the buffer. */
  predicate IsRead(line: string, last: bool) {
    0 < |line| && IsLine(line) && (last || line[|line| - 1] == '\n' || |line| == MaxLineLen)
  }

  /** The note of a decoded line lies after its `;`, inside the C string, and (for a line) before its newline. */
  lemma DecodedText(line: string, parts: seq<string>)
    requires |parts| == 2
    requires var t := StripNewline(CStr(line, 0)); |parts[0]| < |t| && t[|parts[0]|] == ';' && parts[1] == t[|parts[0]| + 1..]
    ensures ';' in CStr(line, 0) && |parts[1]| < |CStr(line, 0)| && NUL !in parts[1]
    ensures IsLine(line) ==> '\n' !in parts[1]
  {
    var s := CStr(line, 0);
    StripIsPrefix(s);
    TextInside(s, StripNewline(s), |parts[0]|, parts[1]);
    if IsLine(line) {
      StrippedLine(line);
    }
  }

  lemma StripIsPrefix(s: string)
    ensures var t := StripNewline(s); |t| <= |s| && t == s[..|t|]
  {
  }

  /** What follows a `;` of a prefix of s is shorter than s and made of characters of that prefix. */
  lemma TextInside(s: string, t: string, p: nat, x: string)
    requires |t| <= |s| && t == s[..|t|] && p < |t| && t[p] == ';' && x == t[p + 1..]
    ensures ';' in s && |x| < |s|
    ensures forall c :: c in x ==> c in t && c in s
  {
    assert s[p] == t[p];
    forall c | c in x ensures c in t && c in s {
      var k :| 0 <= k < |x| && x[k] == c;
      assert t[p + 1 + k] == c && s[p + 1 + k] == c;
    }
  }

  /** Splitting in two cuts at a `;`: the second piece is what follows the first `;`. */
  lemma SplitInTwo(t: string, parts: seq<string>)
    requires Split(t, ';', 2) == Some(parts)
    ensures |parts| == 2 && |parts[0]| < |t| && t[|parts[0]|] == ';' && parts[1] == t[|parts[0]| + 1..]
  {
    SplitThenJoin(t, ';', 2);
    assert Join(parts[1..], ';') == parts[1];
    assert t == parts[0] + [';'] + parts[1];
  }

  /** A line read by fgets has no newline left once its trailing one is cut. */
  lemma StrippedLine(line: string)
    requires IsLine(line)
    ensures '\n' !in StripNewline(CStr(line, 0))
  {
    var s := CStr(line, 0);
    var t := StripNewline(s);
    forall j | 0 <= j < |t| ensures t[j] != '\n' {
      assert t[j] == s[j] == line[j];
      if j < |line| - 1 {
        assert line[..|line| - 1][j] == line[j];
      }
    }
  }

  /**
   * The body of the load loop: fgets copies the line into a buffer of
   * MaxLineLen + 1 characters and terminates it; blank lines are skipped, one
   * trailing newline is cut, the buffer is split in place on `;`, and the day
   * field goes through strtol, whose end pointer must reach the terminator.
   */
  method ReadRecord(line: string) returns (rec: Option<Record>)
    requires IsLine(line)
    ensures rec == Decode(line)
  {
    var buf := Fgets(line);
    ghost var s := CStr(line, 0);
    if buf[0] == '\n' || buf[0] == NUL {
      return None;
    }
    ChopNewline(buf);
    var ok, linedata := SplitByDelim(buf, ';', 2);
    if !ok {
      return None;
    }
    var day := CStr(buf[..], linedata[0]);
    var parsed := StrToL(day);
    if parsed.end < |day| {
      return None;
    }
    rec := Some(Record(SizeT(parsed.value), CStr(buf[..], linedata[1])));
  }

  /** fgets into a fresh buffer of MaxLineLen + 1 characters: the line, then NULs. */
  method Fgets(line: string) returns (buf: array<char>)
    requires IsLine(line)
    ensures fresh(buf) && buf.Length == MaxLineLen + 1
    ensures CStr(buf[..], 0) == CStr(line, 0)
    ensures buf[0] == NUL <==> |CStr(line, 0)| == 0
    ensures |CStr(line, 0)| > 0 ==> buf[0] == CStr(line, 0)[0]
  {
    buf := new char[MaxLineLen + 1](_ => NUL);
    var i := 0;
    while i < |line|
      invariant 0 <= i <= |line|
      invariant forall j :: 0 <= j < i ==> buf[j] == line[j]
      invariant forall j :: i <= j < buf.Length ==> buf[j] == NUL
    {
      buf[i] := line[i];
      i := i + 1;
    }
    FilledBuffer(line, buf[..]);
  }

  /** Cuts one trailing newline off the C string at the start of buf. */
  method ChopNewline(buf: array<char>)
    modifies buf
    ensures CStr(buf[..], 0) == StripNewline(CStr(old(buf[..]), 0))
  {
    var lineLen := StrLen(buf, 0);
    if lineLen > 0 && buf[lineLen - 1] == '\n' {
      buf[lineLen - 1] := NUL;
      CStrSlice(buf[..], 0, lineLen - 1);
    }
  }

  /** A buffer holding the line followed only by NULs reads back as the line's C string. */
  lemma FilledBuffer(line: string, b: seq<char>)
    requires |line| < |b| && forall j :: 0 <= j < |line| ==> b[j] == line[j]
    requires forall j :: |line| <= j < |b| ==> b[j] == NUL
    ensures CStr(b, 0) == CStr(line, 0)
  {
    var s := CStr(line, 0);
    assert forall j :: 0 <= j < |s| ==> b[j] != NUL;
    CStrSlice(b, 0, |s|);
  }

  /** `"%02u"`: decimal digits, padded with a leading zero to at least two. */
  function Pad2(n: nat): (r: string)
    ensures n <= 99 ==> r == [DigitChar(n / 10), DigitChar(n % 10)]
  {
    if n < 10 then
      assert DigitChar(0) == '0';
      ['0'] + Decimal(n)
    else
      assert n <= 99 ==> Decimal(n / 10) == [DigitChar(n / 10)];
      Decimal(n)
  }

  function Decimal(n: nat): (r: string)
    decreases n
  {
    if n < 10 then [DigitChar(n)] else Decimal(n / 10) + [DigitChar(n % 10)]
  }

  function DigitChar(d: nat): (c: char)
    requires d <= 9
    ensures IsDigit(c) && DigitValue(c) == d
  {
    ('0' as int + d) as char
  }

  /** One line of the saved file: `"%02u;%s\n"` of day and note. */
  function Encode(mday: nat, note: string): (r: string)
    ensures mday <= 99 ==> |r| == |note| + 4 && r[2] == ';' && r[3..|r| - 1] == note && r[|r| - 1] == '\n'
    ensures mday <= 99 ==> IsDigit(r[0]) && IsDigit(r[1]) && 10 * DigitValue(r[0]) + DigitValue(r[1]) == mday
  {
    Pad2(mday) + ";" + note + "\n"
  }

  /** A two-digit field is read back by strtol as the number it encodes, up to its end. */
  lemma Pad2Parses(n: nat)
    requires n <= 99
    ensures |Pad2(n)| == 2 && ';' !in Pad2(n) && NUL !in Pad2(n) && Pad2(n)[0] != '\n'
    ensures StrToL(Pad2(n)) == Parsed(n, 2)
  {
    var p := Pad2(n);
    if n < 10 {
      assert DigitChar(0) == '0';
    } else {
      assert Decimal(n / 10) == [DigitChar(n / 10)];
    }
    assert p == [DigitChar(n / 10), DigitChar(n % 10)];
    assert SpanSpaces(p) == 0;
    assert p[0..] == p;
    assert SpanDigits(p) == 2 by {
      assert SpanDigits(p[1..]) == 1 + SpanDigits(p[2..]);
    }
    assert p[0..0 + 2] == p;
    assert DigitsValue(p) == 10 * DigitsValue(p[..1]) + n % 10;
    assert DigitsValue(p[..1]) == n / 10 by {
      assert p[..1][..0] == [];
    }
  }

  /** Decoding an encoded record gives the record back, for a day below 100 and a note with no newline or NUL. */
  lemma DecodeEncode(mday: nat, note: string)
    requires mday <= 99 && '\n' !in note && NUL !in note
    ensures Decode(Encode(mday, note)) == Some(Record(mday, note))
  {
    var p := Pad2(mday);
    Pad2Parses(mday);
    LineLayout(p, note);
    assert Encode(mday, note) == (p + ";" + note) + "\n";
    DecodeFields(Encode(mday, note), p, note);
  }

  /** An encoded record of a note of at most MaxNoteLen characters fits one read of the load loop. */
  lemma EncodeFitsLine(mday: nat, note: string)
    requires mday <= 99 && |note| <= MaxNoteLen && '\n' !in note
    ensures var line := Encode(mday, note); 0 < |line| && line[|line| - 1] == '\n' && IsLine(line)
  {
    Pad2Parses(mday);
    var line := Encode(mday, note);
    assert line[..|line| - 1] == Pad2(mday) + ";" + note;
  }

  /**
   * A non-blank line whose text (without its newline) is a day field free of
   * `;`, a `;` and the rest decodes to the strtol value of the field and the
   * rest when strtol consumes the whole field, and is skipped otherwise.
   */
  lemma DecodeFields(line: string, day: string, text: string)
    requires var s := CStr(line, 0); |s| > 0 && s[0] != '\n'
    requires StripNewline(CStr(line, 0)) == day + ";" + text && ';' !in day
    ensures Decode(line) == if StrToL(day).end == |day| then Some(Record(SizeT(StrToL(day).value), text)) else None
  {
    JoinThenSplit([day, text], ';');
    assert Join([day, text], ';') == day + ";" + text;
  }

  /** A line whose text holds no `;` is skipped. */
  lemma DecodeNeedsDelimiter(line: string)
    requires ';' !in CStr(line, 0)
    ensures Decode(line) == None
  {
    var s := CStr(line, 0);
    if |s| > 0 && s[0] != '\n' {
      var t := StripNewline(s);
      assert forall c :: c in t ==> c in s;
      SplitSucceedsIff(t, ';', 2);
      CountAbsent(t, ';');
    }
  }

  /** The two layouts of a line with a day field and a note: with and without its newline. */
  lemma LineLayout(day: string, text: string)
    requires NUL !in day && NUL !in text && '\n' !in text && ';' !in day && (|day| > 0 ==> day[0] != '\n')
    ensures var t := day + ";" + text;
            CStr(t, 0) == t && StripNewline(t) == t && |t| > 0 && (t[0] == '\n' <==> false)
    ensures var t := day + ";" + text;
            CStr(t + "\n", 0) == t + "\n" && StripNewline(t + "\n") == t && (t + "\n")[0] == t[0]
  {
    var t := day + ";" + text;
    assert forall j :: 0 <= j < |t| ==> t[j] != NUL;
    CStrSlice(t, 0, |t|);
    assert forall j :: 0 <= j < |t + "\n"| ==> (t + "\n")[j] != NUL;
    CStrSlice(t + "\n", 0, |t + "\n"|);
    assert (t + "\n")[..|t|] == t;
  }

  /**
   * The last line of a file may lack its newline: it decodes the same way, and
   * only the first `;` splits, so the note keeps any later ones.
   */
  lemma DecodeUnterminated(mday: nat, note: string)
    requires mday <= 99 && '\n' !in note && NUL !in note
    ensures Decode(Pad2(mday) + ";" + note) == Some(Record(mday, note))
  {
    Pad2Parses(mday);
    LineLayout(Pad2(mday), note);
    DecodeFields(Pad2(mday) + ";" + note, Pad2(mday), note);
  }

  /** A line whose day field holds no digit at all is skipped (strtol converts nothing). */
  lemma DecodeSkipsNonNumeric(day: string, text: string)
    requires |day| > 0 && day[0] != '\n' && ';' !in day && NUL !in day && NUL !in text && '\n' !in text
    requires forall i :: 0 <= i < |day| ==> !IsDigit(day[i])
    ensures Decode(day + ";" + text + "\n") == None
  {
    LineLayout(day, text);
    StrToLNoDigits(day);
    DecodeFields(day + ";" + text + "\n", day, text);
  }

  /** A day field with characters after its number is skipped: endptr stops short of the terminator. */
  lemma DecodeSkipsTrailing(day: string, text: string)
    requires |day| > 0 && day[0] != '\n' && ';' !in day && NUL !in day && NUL !in text && '\n' !in text
    requires StrToL(day).end < |day|
    ensures Decode(day + ";" + text + "\n") == None
  {
    LineLayout(day, text);
    DecodeFields(day + ";" + text + "\n", day, text);
  }
}
