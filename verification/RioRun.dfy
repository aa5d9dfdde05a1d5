/** A run of the buffered reader and of the writer with literal results, whatever the kernel does short of failing. */
module RioRun {
  import opened Bytes
  import opened Rio

  /** The kernel may transfer less than it was asked to, and be interrupted, which is error 4. */
  predicate Patient(script: seq<Answer>) {
    forall i :: 0 <= i < |script| ==> if script[i].Short? then script[i].count > 0 else script[i].errno == 4
  }

  const STREAM: seq<Byte> := [97, 98, 10, 99, 100, 101, 102, 10, 103]

  const CALLS: seq<Request> := [Line(10), Amount(2), Line(3), Line(9), Amount(5), Line(7)]

  const PARTS: seq<seq<Byte>> := [[97, 98, 10], [99, 100], [101, 102], [10], [103], []]

  /** Where in the stream each call starts. */
  const STARTS: seq<nat> := [0, 3, 5, 7, 8, 9, 9]

  /** The calls start where the ones before them end. */
  ghost predicate Follows(stream: seq<Byte>, calls: seq<Request>, starts: seq<nat>, parts: seq<seq<Byte>>) {
    && |starts| == |calls| + 1 && |parts| == |calls| && starts[0] == 0
    && (forall i :: 0 <= i < |starts| ==> starts[i] <= |stream|)
    && forall i {:trigger calls[i]} :: 0 <= i < |calls| ==>
         && starts[i] <= starts[i + 1] && stream[starts[i]..starts[i + 1]] == parts[i]
         && Share(stream[starts[i]..], calls[i]) == starts[i + 1] - starts[i]
  }

  lemma {:induction false} PartsServed(stream: seq<Byte>, calls: seq<Request>, starts: seq<nat>, parts: seq<seq<Byte>>,
                                       i: nat)
    requires Follows(stream, calls, starts, parts) && i <= |calls|
    ensures Rest(stream, calls[..i]) == stream[starts[i]..] && Served(stream, calls[..i]) == parts[..i]
  {
    hide Share, Rest, Served;
    if i == 0 {
      ServedNone(stream, calls);
    } else {
      PartsServed(stream, calls, starts, parts, i - 1);
      ServedUpTo(stream, calls, i - 1);
      var from, to := starts[i - 1], starts[i];
      assert stream[from..][..to - from] == parts[i - 1] && stream[from..][to - from..] == stream[to..];
      assert calls[i - 1] == calls[i - 1] && parts[..i] == parts[..i - 1] + [parts[i - 1]];
    }
  }

  lemma Shares(i: nat)
    requires i < 6
    ensures Share(STREAM[STARTS[i]..], CALLS[i]) == STARTS[i + 1] - STARTS[i]
    ensures STREAM[STARTS[i]..STARTS[i + 1]] == PARTS[i]
  {
    var rest := STREAM[STARTS[i]..];
    if CALLS[i].Line? {
      LineLengthIs(rest, Limit(CALLS[i].maxlen), STARTS[i + 1] - STARTS[i]);
    }
  }

  lemma AllShares()
    ensures Follows(STREAM, CALLS, STARTS, PARTS)
  {
    forall i {:trigger CALLS[i]} | 0 <= i < |CALLS|
      ensures STARTS[i] <= STARTS[i + 1] && STREAM[STARTS[i]..STARTS[i + 1]] == PARTS[i]
      ensures Share(STREAM[STARTS[i]..], CALLS[i]) == STARTS[i + 1] - STARTS[i]
    {
      Shares(i);
    }
  }

  /** Lines of at most nine, two and eight bytes and blocks of two and five, out of nine bytes with two newlines. */
  method ServeRun(script: seq<Answer>) returns (ok: bool, parts: seq<seq<Byte>>)
    requires Patient(script)
    ensures ok && parts == [[97, 98, 10], [99, 100], [101, 102], [10], [103], []]
  {
    hide Served, Follows;
    var file := new File(STREAM, script);
    var reader := new Reader(file);
    ok, parts := Serve(reader, CALLS);
    AllShares();
    PartsServed(STREAM, CALLS, STARTS, PARTS, 6);
    assert CALLS[..6] == CALLS && PARTS[..6] == PARTS;
  }

  method WriteRun(script: seq<Answer>) returns (rc: int, sent: seq<Byte>)
    requires Patient(script)
    ensures rc == 3 && sent == [7, 8, 9]
  {
    var usr := new Byte[4][7, 8, 9, 1];
    var file := new File([], script);
    ghost var given;
    rc, given := WriteFully(file, usr, 3);
    sent := file.sent;
    assert usr[..3] == [7, 8, 9];
  }

  method ReadRun(script: seq<Answer>) returns (rc: int, usr: array<Byte>, left: seq<Byte>)
    requires Patient(script)
    ensures rc == 2 && usr[..] == [97, 98, 0] && left == [10, 99, 100, 101, 102, 10, 103]
  {
    usr := new Byte[3][0, 0, 0];
    var file := new File(STREAM, script);
    ghost var taken;
    rc, taken := ReadFully(file, usr, 2);
    left := file.left;
  }
}
