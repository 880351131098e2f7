/**
  The save target's embedded counter (`CameraApp.incrementFilename`): the
  last maximal run of ASCII digits anywhere in the path is read as a number,
  incremented, and written back zero-padded to the run's width; a path with no
  digit at all gets "_001" inserted before its extension.
 */
module FilenameCounter {
  import opened Wrappers
  import opened Decimal
  import PosixPath

  /** A half-open range of positions `[start, end)` in a path. */
  datatype Span = Span(start: nat, end: nat)

  /**
    `[start, end)` is the last maximal run of digits of `s`: a non-empty run
    of digits, not preceded by a digit, with no digit anywhere after it.
   */
  predicate IsLastRun(s: string, start: nat, end: nat) {
    start < end <= |s| &&
    (forall i :: start <= i < end ==> IsDigit(s[i])) &&
    (start == 0 || !IsDigit(s[start - 1])) &&
    (forall i :: end <= i < |s| ==> !IsDigit(s[i]))
  }

  /** The end of the last digit at or before position `k`, or 0 when there is none. */
  function DigitEndBefore(s: string, k: nat): (e: nat)
    requires k <= |s|
    ensures e <= k
    ensures e > 0 ==> IsDigit(s[e - 1])
    ensures forall i :: e <= i < k ==> !IsDigit(s[i])
  {
    if k == 0 then 0
    else if IsDigit(s[k - 1]) then k
    else DigitEndBefore(s, k - 1)
  }

  /** Where the run of digits that ends at `e` begins. */
  function RunStart(s: string, e: nat): (b: nat)
    requires e <= |s|
    ensures b <= e
    ensures forall i :: b <= i < e ==> IsDigit(s[i])
    ensures b == 0 || !IsDigit(s[b - 1])
  {
    if e == 0 || !IsDigit(s[e - 1]) then e else RunStart(s, e - 1)
  }

  /** The span of the last match of `\d+` in `s`, found from the end. */
  function LastDigitRun(s: string): (r: Option<Span>)
    ensures r.None? <==> !HasDigit(s)
    ensures r.Some? ==> IsLastRun(s, r.value.start, r.value.end)
  {
    var e := DigitEndBefore(s, |s|);
    if e == 0 then None else Some(Span(RunStart(s, e), e))
  }

  /** A path has at most one last run, and `LastDigitRun` finds it. */
  lemma LastRunUnique(s: string, start: nat, end: nat)
    requires IsLastRun(s, start, end)
    ensures LastDigitRun(s) == Some(Span(start, end))
  {
    var r := LastDigitRun(s);
    assert HasDigit(s) by { assert IsDigit(s[end - 1]); }
    var run := r.value;
    assert IsDigit(s[end - 1]) && IsDigit(s[run.end - 1]);
    assert run.end == end;
    if start > 0 { assert !IsDigit(s[start - 1]); }
    if run.start > 0 { assert !IsDigit(s[run.start - 1]); }
  }

  /**
    `str(int(digits) + 1).zfill(len(digits))`: the next counter value. It is
    one digit wider than `digits` exactly when `digits` is all nines.
   */
  function NextCounter(digits: string): (r: string)
    requires AllDigits(digits)
    ensures AllDigits(r)
    ensures ValueOf(r) == ValueOf(digits) + 1
    ensures |r| == if AllNines(digits) then |digits| + 1 else |digits|
  {
    var n := ValueOf(digits) + 1;
    ValueOfToDecimal(n);
    ValueOfZFill(ToDecimal(n), |digits|);
    AllNinesValue(digits);
    ToDecimalLength(n, |digits|);
    ToDecimalLength(n, |digits| + 1);
    ZFill(ToDecimal(n), |digits|)
  }

  /** The digit branch: the last run `run` of `path` is replaced by the next counter. */
  function BumpRun(path: string, run: Span): (r: string)
    requires IsLastRun(path, run.start, run.end)
    ensures |path| <= |r| <= |path| + 1
  {
    assert AllDigits(path[run.start..run.end]) by {
      forall i | 0 <= i < run.end - run.start ensures IsDigit(path[run.start..run.end][i]) {
        assert path[run.start..run.end][i] == path[run.start + i];
      }
    }
    path[..run.start] + NextCounter(path[run.start..run.end]) + path[run.end..]
  }

  /** The branch without digits: "_001" goes between the stem and the extension. */
  function Numbered(path: string): (r: string)
    ensures |r| == |path| + 4
  {
    var parts := PosixPath.SplitExt(path);
    parts.0 + "_001" + parts.1
  }

  /**
    The value of the save target after `incrementFilename`. It is never
    shorter than before: a counter only grows, and a new one adds "_001".
   */
  function NextFilename(path: string): (r: string)
    ensures |path| <= |r| <= |path| + 4
  {
    match LastDigitRun(path)
    case Some(run) => BumpRun(path, run)
    case None => Numbered(path)
  }

  /** The counter a path carries: the value of its last digit run, or 0 without one. */
  function Counter(path: string): (n: nat)
    ensures n > 0 ==> HasDigit(path)
  {
    match LastDigitRun(path)
    case Some(run) => ValueOf(path[run.start..run.end])
    case None => 0
  }

  /** The three parts of a concatenation can be cut out of it again. */
  lemma SpliceParts(pre: string, mid: string, post: string)
    ensures var r := pre + mid + post;
            r[..|pre|] == pre && r[|pre|..|r| - |post|] == mid && r[|r| - |post|..] == post
  {
  }

  /**
    The conditions under which `digits` is the last digit run of
    `pre + digits + post`: a non-empty run of digits, after a non-digit (or at
    the start), followed only by non-digits.
   */
  predicate RunBetween(pre: string, digits: string, post: string) {
    digits != [] && AllDigits(digits) &&
    (pre == [] || !IsDigit(pre[|pre| - 1])) &&
    !HasDigit(post)
  }

  lemma SpliceLastRun(pre: string, mid: string, post: string)
    requires RunBetween(pre, mid, post)
    ensures IsLastRun(pre + mid + post, |pre|, |pre| + |mid|)
  {
    var r := pre + mid + post;
    forall i | |pre| <= i < |pre| + |mid| ensures IsDigit(r[i]) {
      assert r[i] == mid[i - |pre|];
    }
    if pre != [] { assert r[|pre| - 1] == pre[|pre| - 1]; }
    forall i | |pre| + |mid| <= i < |r| ensures !IsDigit(r[i]) {
      assert r[i] == post[i - |pre| - |mid|];
    }
  }

  /** Cutting a path at its last digit run gives three parts that meet `RunBetween`. */
  lemma CutAtLastRun(path: string, start: nat, end: nat)
    requires IsLastRun(path, start, end)
    ensures path == path[..start] + path[start..end] + path[end..]
    ensures RunBetween(path[..start], path[start..end], path[end..])
  {
    var pre, digits, post := path[..start], path[start..end], path[end..];
    assert path == pre + digits + post;
    forall i | 0 <= i < |digits| ensures IsDigit(digits[i]) { assert digits[i] == path[start + i]; }
    if start > 0 { assert pre[start - 1] == path[start - 1]; }
    forall i | 0 <= i < |post| ensures !IsDigit(post[i]) { assert post[i] == path[end + i]; }
  }

  /**
    Reading `NextFilename` off a path cut around its last digit run: the
    prefix and suffix stay, the run is replaced by the next counter.
   */
  lemma NextFilenameAround(pre: string, digits: string, post: string)
    requires RunBetween(pre, digits, post)
    ensures NextFilename(pre + digits + post) == pre + NextCounter(digits) + post
  {
    var p := pre + digits + post;
    SpliceLastRun(pre, digits, post);
    LastRunUnique(p, |pre|, |pre| + |digits|);
    SpliceParts(pre, digits, post);
  }

  /** The counter of a path cut around its last digit run is the value of that run. */
  lemma CounterAround(pre: string, digits: string, post: string)
    requires RunBetween(pre, digits, post)
    ensures Counter(pre + digits + post) == ValueOf(digits)
  {
    var p := pre + digits + post;
    SpliceLastRun(pre, digits, post);
    LastRunUnique(p, |pre|, |pre| + |digits|);
    SpliceParts(pre, digits, post);
  }

  /**
    With a digit in the path, only the last digit run changes: everything
    before and after it is kept, and it is replaced by digits worth one more,
    as wide as before unless the old run was all nines.
   */
  lemma IncrementChangesOnlyLastRun(path: string, start: nat, end: nat)
    requires IsLastRun(path, start, end)
    ensures var r := NextFilename(path);
            var tail := |path| - end;
            r[..start] == path[..start] &&
            r[|r| - tail..] == path[end..] &&
            AllDigits(r[start..|r| - tail]) &&
            ValueOf(r[start..|r| - tail]) == ValueOf(path[start..end]) + 1 &&
            |r| == (if AllNines(path[start..end]) then |path| + 1 else |path|)
  {
    var pre, digits, post := path[..start], path[start..end], path[end..];
    CutAtLastRun(path, start, end);
    NextFilenameAround(pre, digits, post);
    SpliceParts(pre, NextCounter(digits), post);
  }

  /** In the result, the new counter is again the last digit run. */
  lemma IncrementedRunIsLast(path: string, start: nat, end: nat)
    requires IsLastRun(path, start, end)
    ensures var r := NextFilename(path);
            IsLastRun(r, start, |r| - (|path| - end))
  {
    var pre, digits, post := path[..start], path[start..end], path[end..];
    CutAtLastRun(path, start, end);
    NextFilenameAround(pre, digits, post);
    var d := NextCounter(digits);
    SpliceLastRun(pre, d, post);
    var r := NextFilename(path);
    assert r == pre + d + post;
    assert |r| - (|path| - end) == |pre| + |d|;
  }

  /** "001" is the digit string for one. */
  lemma ValueOfFirstCounter()
    ensures AllDigits("001") && ValueOf("001") == 1
  {
    assert "001"[..2] == "00" && "00"[..1] == "0" && "0"[..0] == "";
  }

  /** Without a digit, the result is the stem, '_', the run "001" and the extension. */
  lemma NumberedShape(path: string)
    requires !HasDigit(path)
    ensures var parts := PosixPath.SplitExt(path);
            NextFilename(path) == (parts.0 + "_") + "001" + parts.1 &&
            RunBetween(parts.0 + "_", "001", parts.1)
  {
    var parts := PosixPath.SplitExt(path);
    var stem, ext := parts.0, parts.1;
    assert NextFilename(path) == Numbered(path) == stem + "_001" + ext;
    assert stem + "_001" + ext == (stem + "_") + "001" + ext;
    forall i | 0 <= i < |ext| ensures !IsDigit(ext[i]) { assert ext[i] == path[|stem| + i]; }
    ValueOfFirstCounter();
  }

  /**
    Without a digit, the result splits into the old stem followed by "_001"
    and the old extension, and its last digit run is that "001".
   */
  lemma NumberedWithoutDigits(path: string)
    requires !HasDigit(path)
    ensures var parts := PosixPath.SplitExt(path);
            var r := NextFilename(path);
            r == parts.0 + "_001" + parts.1 &&
            PosixPath.SplitExt(r) == (parts.0 + "_001", parts.1) &&
            IsLastRun(r, |parts.0| + 1, |parts.0| + 4)
  {
    var parts := PosixPath.SplitExt(path);
    var stem, ext := parts.0, parts.1;
    NumberedShape(path);
    assert (stem + "_") + "001" + ext == stem + "_001" + ext;
    // The inserted text holds neither '/' nor '.', so the extension is found
    // at the same place.
    SplitAfterInsert(stem, "_001", ext);
    SpliceLastRun(stem + "_", "001", ext);
  }

  /**
    Inserting text without separators or dots at the end of a stem does not
    move the extension split.
   */
  lemma SplitAfterInsert(stem: string, ins: string, ext: string)
    requires PosixPath.SplitExt(stem + ext) == (stem, ext)
    requires forall i :: 0 <= i < |ins| ==> ins[i] != PosixPath.Sep && ins[i] != PosixPath.ExtSep
    ensures PosixPath.SplitExt(stem + ins + ext) == (stem + ins, ext)
  {
    var p, q := stem + ext, stem + ins + ext;
    var k := |ins|;
    // Positions of p at or after |stem| move right by k in q; earlier ones stay.
    forall c | c == PosixPath.Sep || c == PosixPath.ExtSep
      ensures var r := PosixPath.RFind(p, c);
              PosixPath.RFind(q, c) == if r < |stem| then r else r + k
    {
      RFindAfterInsert(stem, ins, ext, c);
    }
    var sepP, dotP := PosixPath.RFind(p, PosixPath.Sep), PosixPath.RFind(p, PosixPath.ExtSep);
    var sepQ, dotQ := PosixPath.RFind(q, PosixPath.Sep), PosixPath.RFind(q, PosixPath.ExtSep);
    if ext == [] {
      assert !PosixPath.HasExtension(p);
      assert !PosixPath.HasExtension(q) by {
        if dotQ > sepQ {
          if dotP >= |stem| {
            assert false;
          }
          assert dotQ == dotP;
          if sepP >= |stem| {
            assert false;
          }
          assert sepQ == sepP;
          forall i | sepQ < i < dotQ ensures q[i] == PosixPath.ExtSep {
            assert q[i] == p[i];
          }
        }
      }
      assert q == stem + ins;
    } else {
      assert PosixPath.HasExtension(p);
      assert dotP == |stem|;
      assert dotQ == |stem| + k;
      assert sepP < dotP;
      assert sepQ == sepP;
      var i :| sepP < i < dotP && p[i] != PosixPath.ExtSep;
      assert q[i] == p[i];
      assert PosixPath.HasExtension(q);
      assert q[..dotQ] == stem + ins;
      assert q[dotQ..] == ext;
    }
  }

  /**
    Inserting text free of `c` at position `|stem|` leaves the last `c` where
    it was when it lies in `stem`, and moves it right by `|ins|` otherwise.
   */
  lemma RFindAfterInsert(stem: string, ins: string, ext: string, c: char)
    requires forall i :: 0 <= i < |ins| ==> ins[i] != c
    ensures var r := PosixPath.RFind(stem + ext, c);
            PosixPath.RFind(stem + ins + ext, c) == if r < |stem| then r else r + |ins|
  {
    var p, q := stem + ext, stem + ins + ext;
    var rp, rq := PosixPath.RFind(p, c), PosixPath.RFind(q, c);
    var k := |ins|;
    var want := if rp < |stem| then rp else rp + k;
    // `want` holds `c` in q, and no later position of q does.
    if want >= 0 {
      if rp < |stem| { assert q[want] == p[rp]; } else { assert q[want] == p[rp]; }
    }
    forall i | want < i < |q| ensures q[i] != c {
      if i < |stem| {
        assert q[i] == p[i];
      } else if i >= |stem| + k {
        assert q[i] == p[i - k];
      } else {
        assert q[i] == ins[i - |stem|];
      }
    }
    if rq >= 0 { assert q[rq] == c; }
  }

  /** After `incrementFilename` the path always carries a digit. */
  lemma IncrementedHasDigit(path: string)
    ensures HasDigit(NextFilename(path))
  {
    CounterAdvances(path);
  }

  /**
    `incrementFilename` advances the counter by exactly one, also for a path
    without digits (counter 0), which is numbered 1.
   */
  lemma CounterAdvances(path: string)
    ensures Counter(NextFilename(path)) == Counter(path) + 1
  {
    match LastDigitRun(path)
    case Some(run) => CounterAdvancesInRun(path, run.start, run.end);
    case None => CounterStartsAtOne(path);
  }

  lemma CounterAdvancesInRun(path: string, start: nat, end: nat)
    requires IsLastRun(path, start, end)
    ensures Counter(NextFilename(path)) == Counter(path) + 1
  {
    var pre, digits, post := path[..start], path[start..end], path[end..];
    CutAtLastRun(path, start, end);
    NextFilenameAround(pre, digits, post);
    CounterAround(pre, digits, post);
    CounterAround(pre, NextCounter(digits), post);
  }

  lemma CounterStartsAtOne(path: string)
    requires !HasDigit(path)
    ensures Counter(NextFilename(path)) == 1
  {
    var parts := PosixPath.SplitExt(path);
    NumberedShape(path);
    CounterAround(parts.0 + "_", "001", parts.1);
    ValueOfFirstCounter();
  }

  /**
    The save target after `n` saves starting from `path`. A save never
    shortens the target, and after the first save the target has a digit, so
    every later save takes the digit branch.
   */
  function AfterSaves(path: string, n: nat): (r: string)
    ensures |path| <= |r|
    ensures n > 0 ==> HasDigit(r)
  {
    if n == 0 then path
    else
      var prev := AfterSaves(path, n - 1);
      IncrementedHasDigit(prev);
      NextFilename(prev)
  }

  /**
    Each save moves the counter on by one, so `n` saves from any path reach
    counter `Counter(path) + n`. The saves are replayed one at a time on a
    plain string.
   */
  lemma CounterAfterSaves(path: string, n: nat)
    ensures Counter(AfterSaves(path, n)) == Counter(path) + n
  {
    var k, cur := 0, path;
    while k < n
      invariant k <= n && cur == AfterSaves(path, k)
      invariant Counter(cur) == Counter(path) + k
    {
      CounterAdvances(cur);
      cur, k := NextFilename(cur), k + 1;
    }
  }
}
