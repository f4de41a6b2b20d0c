/** What an accident event records besides its frame: the decimal text of
    counters, the snapshot and log paths, and the event timestamp. */
module Outputs {
  import opened Geometry

  predicate IsDigit(c: char)
  {
    '0' <= c <= '9'
  }

  predicate AllDigits(s: string)
  {
    forall k :: 0 <= k < |s| ==> IsDigit(s[k])
  }

  function DigitChar(d: nat): (c: char)
    requires d < 10
    ensures IsDigit(c)
  {
    ('0' as int + d) as char
  }

  function DigitValue(c: char): nat
    requires IsDigit(c)
  {
    c as int - '0' as int
  }

  /** The decimal text of a counter, as an f-string prints an int: at least
      one digit, all digits, and no leading zero. */
  function Decimal(n: nat): (s: string)
    ensures |s| >= 1 && AllDigits(s)
    ensures s[0] == '0' ==> n == 0 && s == "0"
  {
    if n < 10 then [DigitChar(n)] else Decimal(n / 10) + [DigitChar(n % 10)]
  }

  /** Reads decimal text back as a number. */
  function DecimalValue(s: string): nat
    requires AllDigits(s)
  {
    if s == [] then 0 else DecimalValue(s[..|s| - 1]) * 10 + DigitValue(s[|s| - 1])
  }

  /** Reading back the decimal text of n gives n. */
  lemma {:induction false} DecimalRoundTrip(n: nat)
    ensures DecimalValue(Decimal(n)) == n
  {
    if n >= 10 {
      DecimalRoundTrip(n / 10);
      var s := Decimal(n);
      assert s[..|s| - 1] == Decimal(n / 10);
    }
  }

  /** Distinct counters print as distinct text. */
  lemma DecimalInjective(m: nat, n: nat)
    requires Decimal(m) == Decimal(n)
    ensures m == n
  {
    DecimalRoundTrip(m);
    DecimalRoundTrip(n);
  }

  /** The directory holding everything a run writes. */
  const OutputDir: string := "outputs"

  /** The directory holding the event snapshots. */
  const FramesDir: string := "outputs/frames"

  /** The columns of the event log, in order; the header row is written even
      when a run records no event. */
  const LogColumns: seq<string> := ["event_id", "frame", "time_seconds", "time_hhmmss", "snapshot_path"]

  /** os.path.join of a directory (without trailing separator) and a name
      on POSIX: an absolute name replaces the directory. */
  function Join(dir: string, name: string): string
  {
    if |name| > 0 && name[0] == '/' then name else dir + "/" + name
  }

  /** The file name part of a snapshot path after the base name. */
  function SnapshotSuffix(eventId: nat, frame: nat): string
  {
    "_accident_" + (Decimal(eventId) + ("_frame_" + (Decimal(frame) + ".jpg")))
  }

  /** outputs/frames/{base}_accident_{event_id}_frame_{frame}.jpg */
  function SnapshotPath(baseName: string, eventId: nat, frame: nat): string
  {
    Join(FramesDir, baseName + SnapshotSuffix(eventId, frame))
  }

  /** outputs/{base}_accident_log.csv */
  function LogPath(baseName: string): string
  {
    Join(OutputDir, baseName + "_accident_log.csv")
  }

  lemma CancelPrefix(p: string, x: string, y: string)
    requires p + x == p + y
    ensures x == y
  {
    assert x == (p + x)[|p|..];
    assert y == (p + y)[|p|..];
  }

  /** The position of the first non-digit of s, or |s| when there is none. */
  function DigitRunLength(s: string): (n: nat)
    ensures n <= |s|
  {
    if s == [] || !IsDigit(s[0]) then 0 else 1 + DigitRunLength(s[1..])
  }

  lemma {:induction false} DigitRunOfPrefix(a: string, x: string)
    requires AllDigits(a)
    requires |x| > 0 && !IsDigit(x[0])
    ensures DigitRunLength(a + x) == |a|
  {
    if a == [] {
      assert a + x == x;
    } else {
      assert (a + x)[1..] == a[1..] + x;
      DigitRunOfPrefix(a[1..], x);
    }
  }

  /** A run of digits followed by a non-digit can be split in one way only. */
  lemma SplitAtNonDigit(a: string, x: string, b: string, y: string)
    requires AllDigits(a) && AllDigits(b)
    requires |x| > 0 && |y| > 0 && !IsDigit(x[0]) && !IsDigit(y[0])
    requires a + x == b + y
    ensures a == b && x == y
  {
    DigitRunOfPrefix(a, x);
    DigitRunOfPrefix(b, y);
    assert a == (a + x)[..|a|];
    assert b == (b + y)[..|b|];
    CancelPrefix(a, x, y);
  }

  lemma JoinInjective(dir: string, n1: string, n2: string)
    requires |n1| > 0 && |n2| > 0 && n1[0] == n2[0]
    requires Join(dir, n1) == Join(dir, n2)
    ensures n1 == n2
  {
    if n1[0] != '/' {
      CancelPrefix(dir + "/", n1, n2);
    }
  }

  /** Two snapshots of one run never share a path unless they have the same
      event id and frame: no snapshot overwrites another. */
  lemma SnapshotPathInjective(baseName: string, id1: nat, f1: nat, id2: nat, f2: nat)
    requires SnapshotPath(baseName, id1, f1) == SnapshotPath(baseName, id2, f2)
    ensures id1 == id2 && f1 == f2
  {
    var n1 := baseName + SnapshotSuffix(id1, f1);
    var n2 := baseName + SnapshotSuffix(id2, f2);
    assert n1[0] == n2[0] by {
      if |baseName| == 0 {
        assert n1[0] == '_' == n2[0];
      } else {
        assert n1[0] == baseName[0] == n2[0];
      }
    }
    JoinInjective(FramesDir, n1, n2);
    CancelPrefix(baseName, SnapshotSuffix(id1, f1), SnapshotSuffix(id2, f2));
    var t1 := "_frame_" + (Decimal(f1) + ".jpg");
    var t2 := "_frame_" + (Decimal(f2) + ".jpg");
    CancelPrefix("_accident_", Decimal(id1) + t1, Decimal(id2) + t2);
    SplitAtNonDigit(Decimal(id1), t1, Decimal(id2), t2);
    DecimalInjective(id1, id2);
    CancelPrefix("_frame_", Decimal(f1) + ".jpg", Decimal(f2) + ".jpg");
    SplitAtNonDigit(Decimal(f1), ".jpg", Decimal(f2), ".jpg");
    DecimalInjective(f1, f2);
  }

  /** Seconds into the video of a 1-based frame index: frame / fps, or the
      frame index itself when the rate is not positive. */
  function Timestamp(frame: nat, fps: real): (ts: real)
    ensures ts >= 0.0
    ensures fps > 0.0 ==> ts * fps == frame as real
    ensures fps <= 0.0 ==> ts == frame as real
  {
    if fps > 0.0 then frame as real / fps else frame as real
  }

  /** Later frames get strictly later timestamps. */
  lemma TimestampIncreasing(f1: nat, f2: nat, fps: real)
    requires f1 < f2
    ensures Timestamp(f1, fps) < Timestamp(f2, fps)
  {
    if fps > 0.0 {
      var t1, t2 := Timestamp(f1, fps), Timestamp(f2, fps);
      assert (t2 - t1) * fps == (f2 - f1) as real;
      if t2 - t1 <= 0.0 {
        ProductOfNonNegatives(t1 - t2, fps);
      }
    }
  }
}
