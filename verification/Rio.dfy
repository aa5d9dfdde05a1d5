/** The buffered reader of `shell/libcsapp/rio.c`.  The kernel may answer a read with fewer bytes than were
    asked for, or interrupt it; what the callers get does not depend on how it does that. */
module Rio {
  import opened Bytes
  import opened Sequences

  /** How the kernel answers one call: it transfers at most `count` bytes, or it fails. */
  datatype Answer = Short(count: nat) | Fail(errno: int)

  const EINTR: int := 4
  const RIO_BUFSIZE: nat := 8192
  const NEWLINE: Byte := 10

  function Min(a: int, b: int): int {
    if a < b then a else b
  }

  function Max(a: int, b: int): int {
    if a < b then b else a
  }

  /** Some call fails for another reason than a signal. */
  ghost predicate Failing(script: seq<Answer>) {
    exists a :: a in script && a.Fail? && a.errno != EINTR
  }

  /** Some write transfers nothing although there was something to write. */
  ghost predicate Stalling(script: seq<Answer>) {
    Short(0) in script
  }

  ghost predicate Suffix(s: seq<Answer>, t: seq<Answer>) {
    |s| <= |t| && t[|t| - |s|..] == s
  }

  /** `s` with `x` stored at offset `at`. */
  function Stored(s: seq<Byte>, at: nat, x: seq<Byte>): seq<Byte>
    requires at + |x| <= |s|
  {
    s[..at] + x + s[at + |x|..]
  }

  /** `taken` bytes of `all` had been stored, and now the next `k` are. */
  lemma StoredMore(all: seq<Byte>, taken: nat, rest: seq<Byte>, k: nat, usr: seq<Byte>, some: seq<Byte>,
                   more: seq<Byte>)
    requires taken <= |all| && rest == all[taken..] && k <= |rest| && taken + k <= |usr| == |some|
    requires some == Stored(usr, 0, all[..taken]) && more == Stored(some, taken, rest[..k])
    ensures more == Stored(usr, 0, all[..taken + k]) && rest[k..] == all[taken + k..]
  {
    assert all[..taken + k] == all[..taken] + rest[..k];
  }

  lemma OneByte(all: seq<Byte>, was: seq<Byte>, c: seq<Byte>)
    requires all != [] && |was| == 1 && c == Stored(was, 0, all[..1])
    ensures all == c + all[1..] && c == [c[0]]
  {
  }

  lemma StoredNothing(s: seq<Byte>, at: nat)
    requires at <= |s|
    ensures Stored(s, at, []) == s
  {
  }

  /** `memcpy`. */
  method Copy(dst: array<Byte>, at: nat, x: seq<Byte>)
    requires at + |x| <= dst.Length
    modifies dst
    ensures dst[..] == Stored(old(dst[..]), at, x)
  {
    for i := 0 to |x|
      invariant forall j :: 0 <= j < i ==> dst[at + j] == x[j]
      invariant forall j :: 0 <= j < dst.Length && !(at <= j < at + i) ==> dst[j] == old(dst[j])
    {
      dst[at + i] := x[i];
    }
  }

  /** An open file: the bytes still to be read, the bytes written, and how the kernel is going to answer.
      Once the script is used up every call is answered in full. */
  class File {
    var left: seq<Byte>
    var sent: seq<Byte>
    var script: seq<Answer>
    var errno: int

    constructor (left: seq<Byte>, script: seq<Answer>)
      ensures this.left == left && this.script == script && sent == [] && errno == 0
    {
      this.left, this.script, sent, errno := left, script, [], 0;
    }

    /** The kernel's next answer to a call for `n` bytes. */
    method Answered(n: nat) returns (a: Answer)
      requires 0 < n
      modifies this`script
      ensures Suffix(script, old(script))
      ensures a.Fail? ==> |script| < |old(script)| && (a.errno != EINTR ==> Failing(old(script)))
      ensures a == Short(0) ==> |script| < |old(script)| && Stalling(old(script))
    {
      a := Short(n);
      if script != [] {
        a, script := script[0], script[1..];
      }
    }

    /** `read`: transfers nothing only at the end of the file. */
    method Read(dst: array<Byte>, at: nat, n: nat) returns (rc: int)
      requires 0 < n && at + n <= dst.Length
      modifies this, dst
      ensures sent == old(sent) && Suffix(script, old(script))
      ensures rc < 0 ==> |script| < |old(script)| && left == old(left) && dst[..] == old(dst[..])
      ensures rc < 0 && errno != EINTR ==> Failing(old(script))
      ensures 0 <= rc ==> rc <= n && rc <= |old(left)| && (rc == 0 <==> old(left) == [])
      ensures 0 <= rc ==> left == old(left)[rc..] && dst[..] == Stored(old(dst[..]), at, old(left)[..rc])
    {
      hide Suffix, Failing;
      var a := Answered(n);
      if a.Fail? {
        errno := a.errno;
        return -1;
      }
      rc := Min(Max(1, a.count), Min(n, |left|));
      Copy(dst, at, left[..rc]);
      left := left[rc..];
    }

    /** `write`: may transfer nothing, and then leaves `errno` as it is. */
    method Write(src: array<Byte>, at: nat, n: nat) returns (rc: int)
      requires 0 < n && at + n <= src.Length
      modifies this
      ensures left == old(left) && Suffix(script, old(script))
      ensures rc <= n && (rc <= 0 ==> |script| < |old(script)|)
      ensures rc < 0 ==> sent == old(sent) && (errno != EINTR ==> Failing(old(script)))
      ensures 0 <= rc ==> sent == old(sent) + src[at..at + rc] && errno == old(errno)
      ensures rc == 0 ==> Stalling(old(script))
    {
      var a := Answered(n);
      if a.Fail? {
        errno := a.errno;
        return -1;
      }
      rc := Min(a.count, n);
      sent := sent + src[at..at + rc];
    }
  }

  lemma SuffixFailing(s: seq<Answer>, t: seq<Answer>)
    requires Suffix(s, t)
    ensures (Failing(s) ==> Failing(t)) && (Stalling(s) ==> Stalling(t))
  {
    assert forall i :: 0 <= i < |s| ==> s[i] == t[|t| - |s| + i];
  }

  lemma SuffixOfSuffix(s: seq<Answer>, t: seq<Answer>, u: seq<Answer>)
    requires Suffix(s, t) && Suffix(t, u)
    ensures Suffix(s, u)
  {
  }

  lemma SuffixSelf(s: seq<Answer>)
    ensures Suffix(s, s)
  {
  }

  /** `rio_readn`: exactly `n` bytes, or all there are. */
  method ReadFully(file: File, usr: array<Byte>, n: nat) returns (rc: int, ghost taken: nat)
    requires n <= usr.Length
    modifies file, usr
    ensures Suffix(file.script, old(file.script))
    ensures taken <= n && taken <= |old(file.left)|
    ensures file.left == old(file.left)[taken..] && usr[..] == Stored(old(usr[..]), 0, old(file.left)[..taken])
    ensures (rc == -1 && Failing(old(file.script)) && taken < n) || rc == taken == Min(n, |old(file.left)|)
  {
    hide Suffix, Stored, Failing;
    SuffixSelf(file.script);
    StoredNothing(usr[..], 0);
    var nleft, at := n, 0;
    taken := 0;
    while nleft > 0
      invariant 0 <= nleft <= n && at == n - nleft == taken <= |old(file.left)|
      invariant Suffix(file.script, old(file.script))
      invariant file.left == old(file.left)[taken..] && usr[..] == Stored(old(usr[..]), 0, old(file.left)[..taken])
      decreases nleft, |file.script|
    {
      ghost var script, rest, some := file.script, file.left, usr[..];
      var nread := file.Read(usr, at, nleft);
      SuffixOfSuffix(file.script, script, old(file.script));
      if nread < 0 {
        if file.errno == EINTR {
          nread := 0;
        } else {
          SuffixFailing(script, old(file.script));
          return -1, taken;
        }
      } else if nread == 0 {
        StoredNothing(some, at);
        assert rest[..0] == [] && rest[0..] == rest;
        break;
      }
      if nread > 0 {
        StoredMore(old(file.left), taken, rest, nread, old(usr[..]), some, usr[..]);
      }
      nleft := nleft - nread;
      at := at + nread;
      taken := taken + nread;
    }
    rc := n - nleft;
  }

  /** `rio_writen`: all `n` bytes in order, unless an error cuts it short. */
  method WriteFully(file: File, usr: array<Byte>, n: nat) returns (rc: int, ghost given: nat)
    requires n <= usr.Length
    modifies file
    ensures Suffix(file.script, old(file.script)) && file.left == old(file.left)
    ensures given <= n && file.sent == old(file.sent) + usr[..given]
    ensures (rc == -1 && (Failing(old(file.script)) || Stalling(old(file.script))) && given < n) || rc == given == n
  {
    var nleft, at := n, 0;
    given := 0;
    while nleft > 0
      invariant 0 <= nleft <= n && at == n - nleft == given
      invariant Suffix(file.script, old(file.script)) && file.left == old(file.left)
      invariant file.sent == old(file.sent) + usr[..given]
      decreases nleft, |file.script|
    {
      ghost var script := file.script;
      var nwritten := file.Write(usr, at, nleft);
      SuffixOfSuffix(file.script, script, old(file.script));
      if nwritten <= 0 {
        if file.errno == EINTR {
          nwritten := 0;
        } else {
          SuffixFailing(script, old(file.script));
          return -1, given;
        }
      }
      assert usr[..given + nwritten] == usr[..given] + usr[given..given + nwritten];
      nleft := nleft - nwritten;
      at := at + nwritten;
      given := given + nwritten;
    }
    rc := n;
  }

  /** The length of the first line of `s`, its newline included, cut off after `limit` bytes. */
  function LineLength(s: seq<Byte>, limit: nat): (k: nat)
    ensures k <= limit && k <= |s|
    ensures forall i :: 0 <= i < k - 1 ==> s[i] != NEWLINE
    ensures k == limit || k == |s| || (k > 0 && s[k - 1] == NEWLINE)
  {
    if s == [] || limit == 0 then 0
    else if s[0] == NEWLINE then 1
    else 1 + LineLength(s[1..], limit - 1)
  }

  /** How many bytes of a line fit a buffer that also takes a NUL; none fit one that is said to have no room. */
  function Limit(maxlen: nat): nat {
    if maxlen == 0 then 0 else maxlen - 1
  }

  /** Those three facts leave no choice. */
  lemma {:induction false} LineLengthIs(s: seq<Byte>, limit: nat, k: nat)
    requires k <= limit && k <= |s|
    requires forall i :: 0 <= i < k - 1 ==> s[i] != NEWLINE
    requires k == limit || k == |s| || (k > 0 && s[k - 1] == NEWLINE)
    ensures LineLength(s, limit) == k
  {
    if s != [] && limit > 0 && s[0] != NEWLINE {
      LineLengthIs(s[1..], limit - 1, k - 1);
    }
  }

  /** `taken` bytes of `all` have been moved to the client's buffer, and no line ended before the last of them. */
  predicate OnLine(all: seq<Byte>, taken: nat, rest: seq<Byte>, orig: seq<Byte>, usr: seq<Byte>) {
    && taken <= |all| && rest == all[taken..]
    && |usr| == |orig| && taken <= |usr| && usr[..taken] == all[..taken] && (taken == 0 ==> usr == orig)
    && forall i :: 0 <= i < taken - 1 ==> all[i] != NEWLINE
  }

  /** Nor with it. */
  predicate Open(all: seq<Byte>, taken: nat) {
    0 < taken <= |all| ==> all[taken - 1] != NEWLINE
  }

  lemma LineStart(all: seq<Byte>, usr: seq<Byte>)
    ensures OnLine(all, 0, all, usr, usr) && Open(all, 0)
  {
  }

  lemma LineStep(all: seq<Byte>, taken: nat, rest: seq<Byte>, orig: seq<Byte>, usr: seq<Byte>,
                 c: Byte, rest': seq<Byte>, usr': seq<Byte>)
    requires OnLine(all, taken, rest, orig, usr) && Open(all, taken) && taken < |usr|
    requires rest == [c] + rest' && usr' == usr[taken := c]
    ensures OnLine(all, taken + 1, rest', orig, usr') && (Open(all, taken + 1) <==> c != NEWLINE)
  {
    assert all[taken] == rest[0] == c;
    assert all[taken + 1..] == rest[1..] == rest';
    assert usr'[..taken + 1] == usr[..taken] + [c];
    assert all[..taken + 1] == all[..taken] + [c];
  }

  lemma LineNow(all: seq<Byte>, taken: nat, rest: seq<Byte>, orig: seq<Byte>, usr: seq<Byte>, limit: nat)
    requires OnLine(all, taken, rest, orig, usr) && taken <= limit
    ensures taken <= |all| && rest == all[taken..] && taken <= |usr| && usr[..taken] == all[..taken]
    ensures taken == 0 ==> usr == orig
    ensures forall i :: 0 <= i < taken - 1 ==> all[i] != NEWLINE
    ensures !Open(all, taken) ==> taken > 0 && all[taken - 1] == NEWLINE
    ensures rest == [] || taken == limit || !Open(all, taken) ==> LineLength(all, limit) == taken
  {
    hide LineLength;
    if rest == [] || taken == limit || !Open(all, taken) {
      LineLengthIs(all, limit, taken);
    }
  }

  lemma LineEnd(usr: seq<Byte>, taken: nat, usr': seq<Byte>)
    requires taken < |usr| && usr' == usr[taken := 0]
    ensures usr'[..taken] == usr[..taken] && usr'[taken] == 0
  {
  }

  class Reader {
    const file: File
    const buf: array<Byte>
    var cnt: int
    var ptr: nat

    ghost predicate Valid()
      reads this
    {
      buf.Length == RIO_BUFSIZE && cnt <= RIO_BUFSIZE && (cnt > 0 ==> ptr + cnt <= RIO_BUFSIZE)
    }

    /** The bytes the callers have not got yet. */
    ghost function Pending(): seq<Byte>
      requires Valid()
      reads this, buf, file
    {
      (if cnt > 0 then buf[ptr..ptr + cnt] else []) + file.left
    }

    /** `rio_readinitb`. */
    constructor (file: File)
      ensures Valid() && Pending() == file.left && this.file == file && fresh(buf)
    {
      this.file := file;
      cnt, ptr := 0, 0;
      buf := new Byte[RIO_BUFSIZE];
    }

    /** Refills the internal buffer if it is empty. */
    method Refill() returns (rc: int)
      requires Valid()
      modifies this, buf, file
      ensures Valid() && Pending() == old(Pending()) && Suffix(file.script, old(file.script))
      ensures rc == 1 || rc == 0 || rc == -1
      ensures rc == 1 ==> cnt > 0
      ensures rc == 0 ==> old(Pending()) == []
      ensures rc == -1 ==> Failing(old(file.script))
    {
      while cnt <= 0
        invariant Valid() && Pending() == old(Pending()) && Suffix(file.script, old(file.script))
        decreases |file.script|, cnt <= 0
      {
        ghost var script := file.script;
        cnt := file.Read(buf, 0, buf.Length);
        SuffixOfSuffix(file.script, script, old(file.script));
        if cnt < 0 {
          if file.errno != EINTR {
            SuffixFailing(script, old(file.script));
            return -1;
          }
        } else if cnt == 0 {
          return 0;
        } else {
          ptr := 0;
        }
      }
      rc := 1;
    }

    /** `rio_read`: at least one byte, unless there is none left. */
    method Read(usr: array<Byte>, at: nat, n: nat) returns (rc: int)
      requires Valid() && 0 < n && at + n <= usr.Length && usr != buf
      modifies this, buf, file, usr
      ensures Valid() && Suffix(file.script, old(file.script))
      ensures rc < 0 ==> rc == -1 && Failing(old(file.script)) && Pending() == old(Pending()) && usr[..] == old(usr[..])
      ensures 0 <= rc ==> rc <= n && rc <= |old(Pending())| && (rc == 0 <==> old(Pending()) == [])
      ensures 0 <= rc ==> Pending() == old(Pending())[rc..] && usr[..] == Stored(old(usr[..]), at, old(Pending())[..rc])
    {
      hide Suffix, Stored, Failing;
      StoredNothing(usr[..], at);
      assert old(Pending())[..0] == [] && old(Pending())[0..] == old(Pending());
      var full := Refill();
      if full <= 0 {
        return full;
      }
      ghost var all := Pending();
      rc := n;
      if cnt < n {
        rc := cnt;
      }
      assert buf[ptr..ptr + rc] == all[..rc];
      Copy(usr, at, buf[ptr..ptr + rc]);
      ptr := ptr + rc;
      cnt := cnt - rc;
      assert Pending() == all[rc..];
    }

    /** `rio_readnb`: exactly `n` bytes, or all there are. */
    method ReadN(usr: array<Byte>, n: nat) returns (rc: int, ghost taken: nat)
      requires Valid() && n <= usr.Length && usr != buf
      modifies this, buf, file, usr
      ensures Valid() && Suffix(file.script, old(file.script))
      ensures taken <= n && taken <= |old(Pending())| && Pending() == old(Pending())[taken..]
      ensures usr[..] == Stored(old(usr[..]), 0, old(Pending())[..taken])
      ensures (rc == -1 && Failing(old(file.script)) && taken < n) || rc == taken == Min(n, |old(Pending())|)
    {
      hide Suffix, Stored, Failing, Pending;
      ghost var all, was := Pending(), usr[..];
      SuffixSelf(file.script);
      StoredNothing(was, 0);
      var nleft, at := n, 0;
      taken := 0;
      while nleft > 0
        invariant 0 <= nleft <= n && at == n - nleft == taken <= |all|
        invariant Valid() && Suffix(file.script, old(file.script)) && Pending() == all[taken..]
        invariant usr[..] == Stored(was, 0, all[..taken])
      {
        ghost var script, rest, some := file.script, Pending(), usr[..];
        var nread := Read(usr, at, nleft);
        SuffixOfSuffix(file.script, script, old(file.script));
        if nread < 0 {
          SuffixFailing(script, old(file.script));
          return -1, taken;
        } else if nread == 0 {
          StoredNothing(some, at);
          assert rest[..0] == [] && rest[0..] == rest;
          break;
        }
        StoredMore(all, taken, rest, nread, was, some, usr[..]);
        nleft := nleft - nread;
        at := at + nread;
        taken := taken + nread;
      }
      rc := n - nleft;
    }

    /** `rio_read` of one byte. */
    method ReadByte() returns (rc: int, c: Byte)
      requires Valid()
      modifies this, buf, file
      ensures Valid() && Suffix(file.script, old(file.script))
      ensures rc == 1 || rc == 0 || (rc == -1 && Failing(old(file.script)) && Pending() == old(Pending()))
      ensures rc == 1 ==> old(Pending()) == [c] + Pending()
      ensures rc == 0 ==> old(Pending()) == [] && Pending() == []
    {
      hide Suffix, Failing, Pending;
      var byte := new Byte[1];
      ghost var all, was := Pending(), byte[..];
      rc := Read(byte, 0, 1);
      c := byte[0];
      if rc == 1 {
        OneByte(all, was, byte[..]);
      }
    }

    /** `rio_readlineb`: the next line, or as much of it as fits, followed by a NUL.  At the end of the file
        nothing is stored. */
    method ReadLine(usr: array<Byte>, maxlen: nat) returns (rc: int, ghost taken: nat)
      requires Valid() && 0 < usr.Length && maxlen <= usr.Length && usr != buf
      modifies this, buf, file, usr
      ensures Valid() && Suffix(file.script, old(file.script))
      ensures taken <= |old(Pending())| && taken <= Limit(maxlen) && Pending() == old(Pending())[taken..]
      ensures usr[..taken] == old(Pending())[..taken]
      ensures (rc == -1 && Failing(old(file.script))) || rc == taken == LineLength(old(Pending()), Limit(maxlen))
      ensures maxlen == 0 ==> taken == 0
      ensures 0 < maxlen ==> taken <= maxlen - 1 && forall i :: 0 <= i < taken - 1 ==> old(Pending())[i] != 10
      ensures 0 < maxlen && 0 <= rc ==>
                taken == maxlen - 1 || Pending() == [] || (taken > 0 && old(Pending())[taken - 1] == 10)
      ensures rc == 0 && maxlen > 1 ==> usr[..] == old(usr[..])
      ensures 0 < rc || maxlen <= 1 ==> usr[taken] == 0
    {
      hide Suffix, Stored, Failing, Pending, LineLength, OnLine, Open, Valid;
      ghost var all, orig := Pending(), usr[..];
      SuffixSelf(file.script);
      LineStart(all, orig);
      var n, at := 1, 0;
      taken := 0;
      while n < maxlen
        invariant 1 <= n <= Max(1, maxlen) && taken == at == n - 1
        invariant Valid() && Suffix(file.script, old(file.script))
        invariant OnLine(all, taken, Pending(), orig, usr[..]) && Open(all, taken)
      {
        ghost var script, rest, some := file.script, Pending(), usr[..];
        var c;
        rc, c := ReadByte();
        SuffixOfSuffix(file.script, script, old(file.script));
        if rc == 1 {
          usr[at] := c;
          LineStep(all, taken, rest, orig, some, c, Pending(), usr[..]);
          at := at + 1;
          taken := taken + 1;
          if c == NEWLINE {
            n := n + 1;
            break;
          }
        } else {
          assert usr[..] == some;
          LineNow(all, taken, rest, orig, some, Limit(maxlen));
          if rc == 0 {
            if n == 1 {
              return 0, taken;
            } else {
              break;
            }
          } else {
            SuffixFailing(script, old(file.script));
            return -1, taken;
          }
        }
        n := n + 1;
      }
      ghost var some := usr[..];
      LineNow(all, taken, Pending(), orig, some, Limit(maxlen));
      usr[at] := 0;
      LineEnd(some, taken, usr[..]);
      rc := n - 1;
    }
  }

  /** A call of a client. */
  datatype Request = Amount(n: nat) | Line(maxlen: nat)

  /** How many of the remaining bytes a call gets; nothing about the kernel comes into it. */
  function Share(stream: seq<Byte>, r: Request): (k: nat)
    ensures k <= |stream|
  {
    match r
    case Amount(n) => Min(n, |stream|)
    case Line(maxlen) => LineLength(stream, Limit(maxlen))
  }

  /** What is left of the stream after some calls. */
  function Rest(stream: seq<Byte>, requests: seq<Request>): seq<Byte>
  {
    if requests == [] then stream else
      var n := |requests| - 1;
      var rest := Rest(stream, requests[..n]);
      rest[Share(rest, requests[n])..]
  }

  /** What the calls get. */
  function Served(stream: seq<Byte>, requests: seq<Request>): seq<seq<Byte>>
  {
    if requests == [] then [] else
      var n := |requests| - 1;
      var rest := Rest(stream, requests[..n]);
      Served(stream, requests[..n]) + [rest[..Share(rest, requests[n])]]
  }

  lemma ConcatSnoc(parts: seq<seq<Byte>>, part: seq<Byte>, rest: seq<Byte>)
    ensures Concat(parts + [part]) + rest == Concat(parts) + (part + rest)
  {
    assert (parts + [part])[..|parts|] == parts;
  }

  lemma ServedStep(stream: seq<Byte>, requests: seq<Request>) returns (part: seq<Byte>)
    requires requests != []
    ensures var init := requests[..|requests| - 1];
      Served(stream, requests) == Served(stream, init) + [part] && Rest(stream, init) == part + Rest(stream, requests)
  {
    hide Share;
    var n := |requests| - 1;
    var rest := Rest(stream, requests[..n]);
    part := rest[..Share(rest, requests[n])];
  }

  /** The parts are consecutive: nothing is lost, repeated or reordered. */
  lemma {:induction false} ServedInOrder(stream: seq<Byte>, requests: seq<Request>)
    ensures Concat(Served(stream, requests)) + Rest(stream, requests) == stream
  {
    hide Concat;
    if requests == [] {
      NothingServed(stream);
    } else {
      var init := requests[..|requests| - 1];
      var part := ServedStep(stream, requests);
      ServedInOrder(stream, init);
      ConcatSnoc(Served(stream, init), part, Rest(stream, requests));
    }
  }

  lemma NothingServed(stream: seq<Byte>)
    ensures Concat([]) + stream == stream
  {
  }

  /** One call of a client, into a buffer of its own. */
  method Call(reader: Reader, r: Request) returns (ok: bool, part: seq<Byte>)
    requires reader.Valid()
    modifies reader, reader.buf, reader.file
    ensures reader.Valid() && Suffix(reader.file.script, old(reader.file.script))
    ensures !ok ==> Failing(old(reader.file.script))
    ensures ok ==> var all := old(reader.Pending()); var k := Share(all, r);
            part == all[..k] && reader.Pending() == all[k..]
  {
    hide Suffix, Failing, Stored, LineLength;
    ghost var all := reader.Pending();
    var rc;
    ghost var taken;
    match r {
    case Amount(n) =>
      var usr := new Byte[n];
      ghost var was := usr[..];
      rc, taken := reader.ReadN(usr, n);
      if rc < 0 {
        return false, [];
      }
      part := usr[..rc];
      StoredFront(was, all[..taken]);
      assert part == all[..Share(all, r)];
      assert reader.Pending() == all[Share(all, r)..];
    case Line(maxlen) =>
      var usr := new Byte[Max(1, maxlen)];
      rc, taken := reader.ReadLine(usr, maxlen);
      if rc < 0 {
        return false, [];
      }
      part := usr[..rc];
      assert part == all[..Share(all, r)];
      assert reader.Pending() == all[Share(all, r)..];
    }
    ok := true;
  }

  lemma StoredFront(s: seq<Byte>, x: seq<Byte>)
    requires |x| <= |s|
    ensures Stored(s, 0, x)[..|x|] == x && |Stored(s, 0, x)| == |s|
  {
  }

  lemma ServedNone(stream: seq<Byte>, requests: seq<Request>)
    ensures Served(stream, requests[..0]) == [] && Rest(stream, requests[..0]) == stream
            && requests[..|requests|] == requests
  {
  }

  lemma ServedUpTo(stream: seq<Byte>, requests: seq<Request>, i: nat)
    requires i < |requests|
    ensures var rest := Rest(stream, requests[..i]);
            var k := Share(rest, requests[i]);
            && Served(stream, requests[..i + 1]) == Served(stream, requests[..i]) + [rest[..k]]
            && Rest(stream, requests[..i + 1]) == rest[k..]
  {
    hide Share;
    assert requests[..i + 1][..i] == requests[..i];
  }

  /** What a call may get, when `last` tells whether that was the end of the stream: as many bytes as it asked for, or a
      line that ends with the only newline in it and leaves room for a NUL, or all there are. */
  predicate Fits(r: Request, part: seq<Byte>, last: bool) {
    match r
    case Amount(n) => |part| <= n && (|part| == n || last)
    case Line(maxlen) =>
      && |part| <= (if maxlen > 0 then maxlen - 1 else 0)
      && (forall i :: 0 <= i < |part| - 1 ==> part[i] != 10)
      && (maxlen <= 1 || |part| == maxlen - 1 || last || (part != [] && part[|part| - 1] == 10))
  }

  lemma ShareFits(stream: seq<Byte>, r: Request)
    ensures Fits(r, stream[..Share(stream, r)], stream[Share(stream, r)..] == [])
  {
  }

  /** The parts up to the `i`-th make up the stream exactly when nothing is left of it. */
  lemma LastServed(stream: seq<Byte>, requests: seq<Request>, parts: seq<seq<Byte>>, i: nat)
    requires i <= |requests| && parts == Served(stream, requests[..i])
    ensures Concat(parts) == stream <==> Rest(stream, requests[..i]) == []
  {
    hide Concat, Served, Rest;
    ServedInOrder(stream, requests[..i]);
    if Rest(stream, requests[..i]) == [] {
      assert Concat(parts) + [] == Concat(parts);
    }
  }

  /** Each call gets what it may get, the last one that gets anything the end of the stream. */
  predicate AllFit(requests: seq<Request>, parts: seq<seq<Byte>>, stream: seq<Byte>) {
    && |parts| <= |requests|
    && forall i :: 0 <= i < |parts| ==> Fits(requests[i], parts[i], Concat(parts[..i + 1]) == stream)
  }

  lemma NoneFit(requests: seq<Request>, stream: seq<Byte>)
    ensures AllFit(requests, [], stream)
  {
  }

  lemma FitsMore(stream: seq<Byte>, requests: seq<Request>, parts: seq<seq<Byte>>, part: seq<Byte>)
    requires |parts| < |requests| && AllFit(requests, parts, stream) && parts == Served(stream, requests[..|parts|])
    requires var rest := Rest(stream, requests[..|parts|]); part == rest[..Share(rest, requests[|parts|])]
    ensures AllFit(requests, parts + [part], stream)
  {
    hide Concat, Served, Rest, Share, Fits;
    var i, more := |parts|, parts + [part];
    ServedUpTo(stream, requests, i);
    ShareFits(Rest(stream, requests[..i]), requests[i]);
    LastServed(stream, requests, more, i + 1);
    forall j | 0 <= j < |more|
      ensures Fits(requests[j], more[j], Concat(more[..j + 1]) == stream)
    {
      if j < i {
        assert more[..j + 1] == parts[..j + 1] && Fits(requests[j], parts[j], Concat(parts[..j + 1]) == stream);
      } else {
        assert more[..j + 1] == more;
      }
    }
  }

  /** Any mix of calls: the kernel's answers decide whether it gets through, never what it gets. */
  method Serve(reader: Reader, requests: seq<Request>) returns (ok: bool, parts: seq<seq<Byte>>)
    requires reader.Valid()
    modifies reader, reader.buf, reader.file
    ensures reader.Valid()
    ensures !ok ==> Failing(old(reader.file.script)) && |parts| < |requests|
    ensures ok ==> |parts| == |requests| && Concat(parts) + reader.Pending() == old(reader.Pending())
    ensures parts == Served(old(reader.Pending()), requests[..|parts|])
    ensures AllFit(requests, parts, old(reader.Pending()))
  {
    hide Suffix, Failing, Share, Served, Rest, Concat, AllFit;
    ghost var all := reader.Pending();
    ServedNone(all, requests);
    NoneFit(requests, all);
    parts := [];
    SuffixSelf(reader.file.script);
    var i := 0;
    while i < |requests|
      invariant i == |parts| <= |requests| && reader.Valid()
      invariant Suffix(reader.file.script, old(reader.file.script))
      invariant parts == Served(all, requests[..i]) && reader.Pending() == Rest(all, requests[..i])
      invariant AllFit(requests, parts, all)
    {
      ghost var script := reader.file.script;
      var served, part := Call(reader, requests[i]);
      SuffixOfSuffix(reader.file.script, script, old(reader.file.script));
      if !served {
        SuffixFailing(script, old(reader.file.script));
        return false, parts;
      }
      ServedUpTo(all, requests, i);
      FitsMore(all, requests, parts, part);
      parts := parts + [part];
      i := i + 1;
    }
    ServedInOrder(all, requests);
    ok := true;
  }
}
