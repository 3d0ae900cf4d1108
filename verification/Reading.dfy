// readn (src/hook/hook.c, src/client/main.hpp, src/server/monitor/monitor.cpp)
// and reads (src/client/get_message.h): read until the buffer is full, the
// stream ends or an error occurs.
module Reading {
  import opened Bytes

  // How the kernel answers one read(): interrupted by a signal, failed, or at
  // most `most` bytes (at least one while the stream has any).
  datatype Response = Interrupted | Failed | Some(most: nat)

  // Bytes one successful read() of at most `want` delivers.
  function Got(response: Response, want: nat, avail: nat): nat
    requires response.Some?
  {
    Min(Min(if response.most < 1 then 1 else response.most, want), avail)
  }

  // Whether an error shows up before the request is complete.  Once `script` is
  // used up the kernel delivers everything asked for.
  function Fails(script: seq<Response>, want: nat, avail: nat): bool {
    if want == 0 || script == [] then false
    else match script[0]
      case Interrupted => Fails(script[1..], want, avail)
      case Failed => true
      case Some(_) =>
        var got := Got(script[0], want, avail);
        if got == 0 then false else Fails(script[1..], want - got, avail - got)
  }

  // The bytes the first k answers offer.
  function Offered(script: seq<Response>, k: nat): nat
    requires k <= |script|
  {
    if k == 0 then 0
    else Offered(script, k - 1) +
         match script[k - 1] case Some(most) => (if most < 1 then 1 else most) case _ => 0
  }

  // Answer k is an error, the first one, before the request is complete and
  // before an answer of zero bytes has shown the end of the stream.
  ghost predicate ErrorAt(script: seq<Response>, want: nat, avail: nat, k: nat) {
    && k < |script| && script[k].Failed?
    && (forall j :: 0 <= j < k ==> !script[j].Failed?)
    && Min(Offered(script, k), avail) < want
    && forall j :: 0 <= j < k && script[j].Some? ==> Offered(script, j) < avail
  }

  lemma {:induction false} OfferedTail(script: seq<Response>, k: nat)
    requires 0 < k <= |script|
    ensures Offered(script, k) == Offered(script, 1) + Offered(script[1..], k - 1)
  {
    if k > 1 {
      OfferedTail(script, k - 1);
      assert script[1..][k - 2] == script[k - 1];
    }
  }

  lemma LaterError(script: seq<Response>, want: nat, avail: nat, got: nat, k: nat)
    requires script != [] && !script[0].Failed? && want > 0 && 0 < k
    requires got == if script[0].Some? then Got(script[0], want, avail) else 0
    requires script[0].Interrupted? || got > 0
    ensures ErrorAt(script, want, avail, k) <==> ErrorAt(script[1..], want - got, avail - got, k - 1)
  {
    if k < |script| {
      forall j | 0 < j <= k ensures Offered(script, j) == Offered(script, 1) + Offered(script[1..], j - 1) {
        OfferedTail(script, j);
      }
      assert Offered(script, 1) ==
             match script[0] case Some(most) => (if most < 1 then 1 else most) case _ => 0;
      assert forall j :: 0 < j <= k ==> script[1..][j - 1] == script[j];
    }
  }

  // Exactly when readn returns -1.
  lemma {:induction false} FailsExactly(script: seq<Response>, want: nat, avail: nat)
    ensures Fails(script, want, avail) <==> exists k: nat :: ErrorAt(script, want, avail, k)
    decreases |script|
  {
    if want == 0 || script == [] {
    } else if script[0].Failed? {
      assert ErrorAt(script, want, avail, 0);
    } else {
      var got := if script[0].Some? then Got(script[0], want, avail) else 0;
      var rest, w, a := script[1..], want - got, avail - got;
      FailsExactly(rest, w, a);
      if script[0].Interrupted? || got > 0 {
        if k: nat :| ErrorAt(rest, w, a, k) {
          LaterError(script, want, avail, got, k + 1);
        }
        if k: nat :| ErrorAt(script, want, avail, k) {
          LaterError(script, want, avail, got, k);
        }
      } else if k: nat :| ErrorAt(script, want, avail, k) {
        assert false;
      }
    }
  }

  // However the kernel cuts the stream into pieces, the caller gets the same
  // bytes: as many as fit or are there.
  method ReadN(stream: Data, script: seq<Response>, buf: array<byte>) returns (r: int)
    modifies buf
    ensures r == -1 <==> Fails(script, buf.Length, |stream|)
    ensures r != -1 ==>
              && r == Min(buf.Length, |stream|)
              && buf[..r] == stream[..r]
              && buf[r..] == old(buf[r..])
  {
    var n := buf.Length;
    var nleft := n;
    var i := 0;
    while nleft > 0
      invariant 0 <= nleft <= n && n - nleft <= |stream| && 0 <= i <= |script|
      invariant buf[..n - nleft] == stream[..n - nleft]
      invariant buf[n - nleft..] == old(buf[n - nleft..])
      invariant Fails(script[i..], nleft, |stream| - (n - nleft)) == Fails(script, n, |stream|)
      decreases nleft, |script| - i
    {
      var pos := n - nleft;
      var response := if i < |script| then script[i] else Some(nleft);
      if i < |script| {
        assert script[i..][0] == response && script[i..][1..] == script[i + 1..];
        i := i + 1;
      }
      var nread := 0;
      if response.Failed? {
        return -1;
      } else if response.Some? {
        nread := Got(response, nleft, |stream| - pos);
        if nread == 0 {
          break;
        }
        forall k | 0 <= k < nread {
          buf[pos + k] := stream[pos + k];
        }
      }
      nleft := nleft - nread;
    }
    r := n - nleft;
  }
}
