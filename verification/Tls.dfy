/** server/tls.cpp: the sender of TLS connections, which reads the file instead of calling
    sendfile. The TLS channel is a socket on which SSL_ERROR_WANT_WRITE is EAGAIN and any other
    error of SSL_write another errno. */
module Tls {
  import opened ConnectionSpec
  import opened Connection

  /** What ssl_write_all sends, and its result. */
  function SslSent(data: string, script: seq<SysResult>): (string, bool)
    decreases |data|, |script|
  {
    if data == "" then ("", true)
    else if script == [] then (data, true)
    else if script[0].ret <= 0 then
      if script[0].errno.EAGAIN? then SslSent(data, script[1..]) else ("", false)
    else
      var k := ParserSpec.Min(script[0].ret, |data|);
      var more := SslSent(data[k..], script[1..]);
      (data[..k] + more.0, more.1)
  }

  lemma {:induction false} SslSentPrefix(data: string, script: seq<SysResult>)
    ensures SslSent(data, script).0 <= data
    ensures SslSent(data, script).1 <==> SslSent(data, script).0 == data
    ensures Benign(script) ==> SslSent(data, script).1
    decreases |data|, |script|
  {
    if data != "" && script != [] {
      if script[0].ret <= 0 {
        SslSentPrefix(data, script[1..]);
      } else {
        var k := ParserSpec.Min(script[0].ret, |data|);
        SslSentPrefix(data[k..], script[1..]);
        assert data == data[..k] + data[k..];
        if SslSent(data, script).0 == data {
          assert SslSent(data[k..], script[1..]).0 == SslSent(data, script).0[k..] == data[k..];
        }
      }
    }
  }

  /** Exactly: what the calls before the first error other than EAGAIN take, and everything without one. */
  lemma {:induction false} SslSentUntil(data: string, script: seq<SysResult>, bad: seq<SysResult>)
    requires forall i | 0 <= i < |script| :: script[i].ret > 0 || script[i].errno == EAGAIN
    requires bad != [] ==> bad[0].ret <= 0 && bad[0].errno != EAGAIN
    ensures SslSent(data, script + bad).0 == if bad == [] || |data| <= Total(script) then data else data[..Total(script)]
    decreases |script|
  {
    if script == [] {
      assert script + bad == bad;
      assert data[..0] == "";
    } else if data != "" {
      assert (script + bad)[0] == script[0] && (script + bad)[1..] == script[1..] + bad;
      var k := if script[0].ret > 0 then ParserSpec.Min(script[0].ret, |data|) else 0;
      SslSentUntil(data[k..], script[1..], bad);
      CutPiece(data, k, Total(script[1..]));
      assert data[0..] == data;
    }
  }

  lemma SslOnce(wire: string, data: string, at: nat, script: seq<SysResult>, r: SysResult)
    requires at < |data| && r.ret <= |data| - at
    requires script == [] ==> r.ret == |data| - at
    requires script != [] ==> r.errno == script[0].errno
    requires script != [] ==> r.ret == if script[0].ret < |data| - at then script[0].ret else |data| - at
    ensures r.ret <= 0 && !r.errno.EAGAIN? ==> SslSent(data[at..], script) == ("", false)
    ensures r.ret <= 0 && r.errno.EAGAIN? ==> SslSent(data[at..], script) == SslSent(data[at..], Rest(script))
    ensures r.ret > 0 ==>
              && wire + SslSent(data[at..], script).0
                 == wire + Prefix(data[at..], r.ret) + SslSent(data[at + r.ret..], Rest(script)).0
              && SslSent(data[at..], script).1 == SslSent(data[at + r.ret..], Rest(script)).1
  {
    if r.ret > 0 {
      assert data[at..][r.ret..] == data[at + r.ret..];
      assert Prefix(data[at..], r.ret) == data[at..][..r.ret];
    }
  }

  /** ssl_write_all. */
  method SslWriteAll(channel: Socket, data: string) returns (ok: bool)
    modifies channel
    ensures (channel.sent, ok) == (old(channel.sent) + SslSent(data, old(channel.script)).0, SslSent(data, old(channel.script)).1)
    ensures Benign(old(channel.script)) ==> Benign(channel.script)
  {
    hide Prefix;
    var written: nat := 0;
    assert data[0..] == data;
    while written < |data|
      invariant written <= |data|
      invariant channel.sent + SslSent(data[written..], channel.script).0 == old(channel.sent) + SslSent(data, old(channel.script)).0
      invariant SslSent(data[written..], channel.script).1 == SslSent(data, old(channel.script)).1
      invariant Benign(old(channel.script)) ==> Benign(channel.script)
      decreases |data| - written, |channel.script|
    {
      ghost var before, script := channel.sent, channel.script;
      var w := channel.Write(data[written..]);
      SslOnce(before, data, written, script, w);
      if w.ret <= 0 {
        if w.errno == EAGAIN {
          continue;
        }
        return false;
      }
      written := written + w.ret;
    }
    assert data[written..] == "" && channel.sent + "" == channel.sent;
    ok := true;
  }

  /** An open file with its position. `answers` are the coming results of read: a count is cut to
      what was asked for and what is there. */
  class FileCursor {
    const content: string
    var position: nat
    var answers: seq<SysResult>

    constructor (content: string, answers: seq<SysResult>)
      ensures this.content == content && position == 0 && this.answers == answers
    {
      this.content, this.position, this.answers := content, 0, answers;
    }

    method Seek(offset: nat)
      modifies this
      ensures position == offset && answers == old(answers)
    {
      position := offset;
    }

    method Read(n: nat) returns (data: string, ret: int)
      requires position + n <= |content|
      modifies this
      ensures ret <= n && |data| == if ret > 0 then ret else 0
      ensures data == content[old(position)..old(position) + |data|]
      ensures position == old(position) + |data| && answers == Rest(old(answers))
      ensures FailureFree(old(answers)) ==> FailureFree(answers) && (n > 0 ==> ret > 0)
    {
      ret := if answers == [] || answers[0].ret > n then n else answers[0].ret;
      data := if ret > 0 then content[position..position + ret] else "";
      position, answers := position + |data|, Rest(answers);
    }
  }

  const CHUNK: nat := 65536

  /** One turn of the read loop: a piece of the file is read and sent. */
  method SendPiece(channel: Socket, file: FileCursor, toRead: nat) returns (n: int, ok: bool, ghost k: nat)
    requires toRead > 0 && file.position + toRead <= |file.content|
    modifies channel, file
    ensures n <= toRead && file.position == old(file.position) + (if n > 0 then n else 0)
    ensures k <= (if n > 0 then n else 0) && (n > 0 && ok ==> k == n)
    ensures channel.sent == old(channel.sent) + file.content[old(file.position)..old(file.position) + k]
    ensures Benign(old(channel.script)) ==> Benign(channel.script) && ok
    ensures FailureFree(old(file.answers)) ==> FailureFree(file.answers) && n > 0
  {
    hide SslSent, Benign, FailureFree;
    k, ok := 0, true;
    var data;
    data, n := file.Read(toRead);
    if n > 0 {
      SslSentPrefix(data, channel.script);
      k := |SslSent(data, channel.script).0|;
      ok := SslWriteAll(channel, data);
    }
  }

  /** The read loop of ssl_write_response. */
  method SendFromFile(channel: Socket, file: FileCursor, size: nat) returns (ghost m: nat)
    requires file.position + size <= |file.content|
    modifies channel, file
    ensures m <= size && channel.sent == old(channel.sent) + file.content[old(file.position)..old(file.position) + m]
    ensures Benign(old(channel.script)) && FailureFree(old(file.answers)) ==> m == size
  {
    hide Benign, FailureFree;
    ghost var start := file.position;
    var remaining: nat := size;
    m := 0;
    while remaining > 0
      invariant remaining <= size && m == size - remaining && file.position == start + m
      invariant channel.sent == old(channel.sent) + file.content[start..start + m]
      invariant Benign(old(channel.script)) ==> Benign(channel.script)
      invariant FailureFree(old(file.answers)) ==> FailureFree(file.answers)
    {
      ghost var k;
      var n, ok;
      n, ok, k := SendPiece(channel, file, if remaining < CHUNK then remaining else CHUNK);
      SliceThen(file.content, start, start + m, k);
      m := m + k;
      if n <= 0 || !ok {
        break;
      }
      remaining := remaining - n;
    }
  }

  lemma SliceThen(content: string, from: nat, at: nat, k: nat)
    requires from <= at && at + k <= |content|
    ensures content[from..at] + content[at..at + k] == content[from..at + k]
  {}

  /** ssl_write_response. On a channel that does not fail it sends what the plain sender sends;
      otherwise a prefix of the bytes and a prefix of the file range. The file is closed once. */
  method SslWriteResponse(channel: Socket, kernel: Kernel, file: FileCursor, pkg: Package) returns (ghost n: nat, ghost m: nat)
    requires ValidPackage(pkg)
    requires pkg.file.OpenFile? ==> file.content == pkg.file.content && file.position == 0
    modifies channel, kernel, file
    ensures kernel.table == Closing(old(kernel.table), Descriptors(pkg.file))
    ensures n <= |pkg.bytes| && m <= pkg.size
    ensures channel.sent == old(channel.sent) + pkg.bytes[..n] + FileSlice(pkg.file, pkg.offset, m)
    ensures Benign(old(channel.script)) && FailureFree(old(file.answers)) ==> channel.sent == old(channel.sent) + Render(pkg)
  {
    hide SslSent, Benign, Render;
    n := |SslSent(pkg.bytes, channel.script).0|;
    SslSentPrefix(pkg.bytes, channel.script);
    var ok := SslWriteAll(channel, pkg.bytes); // the result is not looked at
    m := 0;
    if pkg.file.OpenFile? {
      if pkg.offset > 0 {
        file.Seek(pkg.offset);
      }
      m := SendFromFile(channel, file, pkg.size);
      kernel.Close(pkg.file.fd);
    }
    if Benign(old(channel.script)) && FailureFree(old(file.answers)) {
      WholePackage(old(channel.sent), pkg);
    }
  }
}
