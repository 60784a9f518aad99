/**
 * The disk under the snapshot and the log (cpp/storage/snapshot.cpp,
 * cpp/storage/wal.cpp): three files, written a byte at a time while other threads
 * append to the log, and every state they have been in, because a crash may
 * leave any of them.
 */
module Disks {
  import opened Basics
  import opened Records
  import opened Recovery

  /** The files, every state they have been in, and what other threads have yet to append to the log. */
  datatype Moment = Moment(files: Files, history: seq<Files>, coming: Bytes)

  class Disk {
    var files: Files
    ghost var history: seq<Files>
    /** What other threads append to the log, and how many bytes of it after each write of this one. */
    var coming: Bytes
    const pace: nat -> nat
    var clock: nat

    ghost function Now(): Moment
      reads this
    {
      Moment(files, history, coming)
    }

    constructor (start: Files, others: Bytes, rhythm: nat -> nat)
      ensures files == start && history == [start] && coming == others && pace == rhythm
    {
      files, history, coming, pace, clock := start, [start], others, rhythm, 0;
    }

    method Store(fs: Files)
      modifies this`files, this`history
      ensures files == fs && history == old(history) + [fs]
    {
      files := fs;
      history := history + [fs];
    }

    /** The others take their turn: an append goes through every shorter append. */
    method Others()
      modifies this
      ensures Grew(old(Now()), Now()) && TempWithin(old(history), history, old(files).temp, old(files).temp)
      ensures files.temp == old(files).temp
    {
      var n := if pace(clock) <= |coming| then pace(clock) else |coming|;
      clock := clock + 1;
      for i := 0 to n
        invariant Grew(old(Now()), Now()) && |coming| == |old(coming)| - i
        invariant TempWithin(old(history), history, old(files).temp, old(files).temp) && files.temp == old(files).temp
      {
        ghost var before := Now();
        NextByte(before);
        Store(files.(log := files.log + [coming[0]]));
        coming := coming[1..];
        GrewOn(old(Now()), before, Now());
      }
    }

    /** A write to the temporary file, and then the others. */
    method WriteTemp(bs: Bytes)
      modifies this
      ensures Grew(old(Now()), Now()) && files.temp == bs && TempWithin(old(history), history, bs, bs)
    {
      ghost var was := Now();
      OtherTemp(was, bs);
      Store(files.(temp := bs));
      ghost var before := Now();
      Others();
      GrewOn(was, before, Now());
    }

    /** A write goes through every shorter write. */
    method AppendToTemp(bs: Bytes)
      modifies this
      ensures Grew(old(Now()), Now()) && files.temp == old(files).temp + bs
      ensures TempWithin(old(history), history, old(files).temp, old(files).temp + bs)
    {
      assert files.temp + bs[..0] == files.temp;
      for i := 0 to |bs|
        invariant Grew(old(Now()), Now()) && files.temp == old(files).temp + bs[..i]
        invariant TempWithin(old(history), history, old(files).temp, old(files).temp + bs)
      {
        ghost var before := Now();
        OneMore(old(files).temp, bs, i);
        WriteTemp(files.temp + [bs[i]]);
        GrewOn(old(Now()), before, Now());
      }
      assert bs[..|bs|] == bs;
    }

    /** Writing at the start of a file replaces its first bytes. */
    method OverwriteTemp(bs: Bytes)
      requires |bs| <= |files.temp|
      modifies this
      ensures Grew(old(Now()), Now()) && files.temp == bs + old(files).temp[|bs|..]
    {
      assert bs[..0] + files.temp[0..] == files.temp;
      for i := 0 to |bs|
        invariant Grew(old(Now()), Now()) && files.temp == bs[..i] + old(files).temp[i..]
      {
        ghost var before := Now();
        OneOver(bs, old(files).temp, i);
        WriteTemp(files.temp[i := bs[i]]);
        GrewOn(old(Now()), before, Now());
      }
      assert bs[..|bs|] == bs;
    }

    /** `rename` over the old snapshot is a single step; then the others. */
    method RenameTemp()
      modifies this
      ensures var fs := Renamed(old(files), old(files).temp); Grew(Moment(fs, old(history) + [fs], old(coming)), Now())
    {
      Store(Renamed(files, files.temp));
      Others();
    }

    method TruncateLog()
      modifies this`files, this`history
      ensures files == old(files).(log := []) && history == old(history) + [files]
    {
      Store(files.(log := []));
    }
  }

  function Renamed(fs: Files, image: Bytes): Files {
    Files(Some(image), [], fs.log)
  }

  function WithLog(fs: Files, bs: Bytes): Files {
    fs.(log := fs.log + bs)
  }

  /** The same snapshot, and a log between one length and all that others append to it. */
  predicate Amid(state: Files, fs: Files, coming: Bytes) {
    state.snapshot == fs.snapshot && fs.log <= state.log <= fs.log + coming
  }

  /** From one moment to another nothing but the temporary file has changed, and the log has grown by what was coming. */
  ghost predicate Grew(m: Moment, n: Moment) {
    && m.history <= n.history && n.files.snapshot == m.files.snapshot
    && m.files.log <= n.files.log && n.files.log + n.coming == m.files.log + m.coming
    && forall i :: |m.history| <= i < |n.history| ==> Amid(n.history[i], m.files, m.coming)
  }

  /** In every new state the temporary file is between two lengths. */
  ghost predicate TempWithin(before: seq<Files>, after: seq<Files>, low: Bytes, high: Bytes) {
    |before| <= |after| && forall i :: |before| <= i < |after| ==> low <= after[i].temp <= high
  }

  lemma GrewOn(a: Moment, b: Moment, c: Moment)
    requires Grew(a, b) && Grew(b, c)
    ensures Grew(a, c)
  {
    forall i | |a.history| <= i < |c.history| ensures Amid(c.history[i], a.files, a.coming) {
      if i < |b.history| {
        assert c.history[i] == b.history[i];
      } else {
        assert Amid(c.history[i], b.files, b.coming);
      }
    }
  }

  lemma NextByte(m: Moment)
    requires m.coming != []
    ensures var fs := m.files.(log := m.files.log + [m.coming[0]]); Grew(m, Moment(fs, m.history + [fs], m.coming[1..]))
  {
    assert [m.coming[0]] + m.coming[1..] == m.coming;
    Associates(m.files.log, [m.coming[0]], m.coming[1..]);
  }

  lemma OtherTemp(m: Moment, bs: Bytes)
    ensures var fs := m.files.(temp := bs); Grew(m, Moment(fs, m.history + [fs], m.coming))
  {
  }

  lemma OneMore(was: Bytes, bs: Bytes, i: nat)
    requires i < |bs|
    ensures was + bs[..i] + [bs[i]] == was + bs[..i + 1]
    ensures was <= was + bs[..i + 1] <= was + bs
  {
  }

  lemma OneOver(bs: Bytes, was: Bytes, i: nat)
    requires i < |bs| <= |was|
    ensures (bs[..i] + was[i..])[i := bs[i]] == bs[..i + 1] + was[i + 1..]
  {
  }
}
