// Stored names (monitor::backup, recover, transf_file_name and
// recover_file_name in src/server/monitor/monitor.cpp).
module Names {

  import opened CStrings

  const MAC_LENGTH: nat := 17
  const MAC_SIZE: nat := 18

  // transf_file_name and recover_file_name on a name.
  function Escape(name: string): string {
    seq(|name|, i requires 0 <= i < |name| => if name[i] == '/' then '@' else name[i])
  }

  function Unescape(name: string): string {
    seq(|name|, i requires 0 <= i < |name| => if name[i] == '@' then '/' else name[i])
  }

  // The loops run in place over the whole buffer.
  method ReplaceAll(buf: array<char>, from: char, to: char)
    modifies buf
    ensures forall k :: 0 <= k < buf.Length ==> buf[k] == if old(buf[k]) == from then to else old(buf[k])
  {
    var i := 0;
    while i < buf.Length
      invariant 0 <= i <= buf.Length
      invariant forall k :: 0 <= k < i ==> buf[k] == if old(buf[k]) == from then to else old(buf[k])
      invariant forall k :: i <= k < buf.Length ==> buf[k] == old(buf[k])
    {
      if buf[i] == from {
        buf[i] := to;
      }
      i := i + 1;
    }
  }

  method TransfFileName(buf: array<char>)
    modifies buf
    ensures forall k :: 0 <= k < buf.Length ==>
              buf[k] == if old(buf[k]) == '/' || old(buf[k]) == '@' then '@' else old(buf[k])
    ensures '/' !in buf[..]
    ensures buf[..] == Escape(old(buf[..]))
  {
    ReplaceAll(buf, '/', '@');
  }

  method RecoverFileName(buf: array<char>)
    modifies buf
    ensures forall k :: 0 <= k < buf.Length ==>
              buf[k] == if old(buf[k]) == '/' || old(buf[k]) == '@' then '/' else old(buf[k])
    ensures '@' !in buf[..]
    ensures buf[..] == Unescape(old(buf[..]))
  {
    ReplaceAll(buf, '@', '/');
  }

  // The name sent with the n-th packet: recover_file_name runs before each send
  // on the same buffer.
  function SentName(name: string, n: nat): string {
    if n == 0 then Escape(name) else Unescape(SentName(name, n - 1))
  }

  lemma {:induction false} SentNameSettles(name: string, n: nat)
    requires n >= 1
    ensures SentName(name, n) == Unescape(Escape(name))
  {
    if n == 1 {
      assert SentName(name, 0) == Escape(name);
    } else {
      SentNameSettles(name, n - 1);
    }
  }

  // Each packet's name is the file's with every '@' turned into '/'.
  lemma SentNameChars(name: string, n: nat)
    requires n >= 1
    ensures |SentName(name, n)| == |name|
    ensures forall i :: 0 <= i < |name| ==> SentName(name, n)[i] == if name[i] == '@' then '/' else name[i]
  {
    SentNameSettles(name, n);
  }

  // Every packet of a recovery carries the original name exactly when that name
  // has no '@'.
  lemma SentNameExactly(name: string, n: nat)
    requires n >= 1
    ensures SentName(name, n) == name <==> '@' !in name
  {
    SentNameSettles(name, n);
    var sent := Unescape(Escape(name));
    if sent == name {
      forall i | 0 <= i < |name| ensures name[i] != '@' {
        assert sent[i] == name[i];
      }
    } else {
      assert |sent| == |name|;
    }
  }

  // Escaping identifies exactly the names that differ in '/' against '@'.
  predicate Confused(x: char, y: char) { x == y || (x == '/' && y == '@') || (x == '@' && y == '/') }

  predicate SameEscape(a: string, b: string) {
    |a| == |b| && forall i :: 0 <= i < |a| ==> Confused(a[i], b[i])
  }

  lemma SameEscapeSymmetric(a: string, b: string)
    ensures SameEscape(a, b) <==> SameEscape(b, a)
  {
    assert forall i :: 0 <= i < |a| && i < |b| ==> Confused(a[i], b[i]) == Confused(b[i], a[i]);
  }

  lemma NoAtSignSame(a: string, b: string)
    requires '@' !in a && '@' !in b && SameEscape(a, b)
    ensures a == b
  {
    forall i | 0 <= i < |a| ensures a[i] == b[i] {
      assert a[i] in a && b[i] in b && Confused(a[i], b[i]);
    }
  }

  lemma EscapeExactly(a: string, b: string)
    ensures Escape(a) == Escape(b) <==> SameEscape(a, b)
  {
    if Escape(a) == Escape(b) {
      assert |Escape(a)| == |Escape(b)|;
      forall i | 0 <= i < |a| ensures Confused(a[i], b[i]) {
        assert Escape(a)[i] == Escape(b)[i];
      }
    }
    if SameEscape(a, b) {
      assert forall i :: 0 <= i < |a| ==> Confused(a[i], b[i]);
      assert Escape(a) == Escape(b);
    }
  }

  // The path buffer.  It is reused from request to request, so whatever an
  // earlier path left in it is still there.

  ghost predicate Holds(buf: string, text: string) {
    && |text| < |buf| && buf[..|text|] == text && buf[|text|] == NUL
    && forall i :: 0 <= i < |text| ==> text[i] != NUL
  }

  // strcat(buf, text)
  function Strcat(buf: string, text: string): string
    requires StrLen(buf) + |text| < |buf|
  {
    var n := StrLen(buf);
    buf[..n] + text + [NUL] + buf[n + |text| + 1..]
  }

  // memcpy(backup_f_name, mac, MAC_ADD_SIZE), the mac being a C string in an
  // 18-byte field.
  function CopyMac(buf: string, mac: string): string
    requires |mac| == MAC_LENGTH && MAC_SIZE <= |buf|
  {
    mac + [NUL] + buf[MAC_SIZE..]
  }

  lemma StrcatHolds(buf: string, had: string, text: string)
    requires Holds(buf, had) && |had| + |text| < |buf|
    requires forall i :: 0 <= i < |text| ==> text[i] != NUL
    ensures StrLen(buf) == |had| && Holds(Strcat(buf, text), had + text) && |Strcat(buf, text)| == |buf|
  {
    assert forall i :: 0 <= i < |had| ==> buf[i] == buf[..|had|][i];
    StrLenIs(buf, |had|);
  }

  predicate ValidMac(mac: string) { |mac| == MAC_LENGTH && NUL !in mac }

  predicate ValidName(name: string) { |name| <= 255 && NUL !in name }

  function Path(mac: string, name: string): string { mac + "/" + Escape(name) }

  // A stored file lies in the directory of its MAC, never deeper: behind the one
  // separator every '/' of the name is an '@'.
  ghost predicate FlatPath(path: string, mac: string, name: string) {
    && |path| == 18 + |name| && path[..17] == mac && path[17] == '/'
    && (forall i :: 0 <= i < |name| ==>
          path[18 + i] == if name[i] == '/' || name[i] == '@' then '@' else name[i])
    && '/' !in path[18..]
  }

  lemma PathIsFlat(mac: string, name: string)
    requires ValidMac(mac)
    ensures FlatPath(Path(mac, name), mac, name)
    ensures '/' !in mac ==> forall i :: 0 <= i < |Path(mac, name)| ==> (Path(mac, name)[i] == '/' <==> i == 17)
  {
    var path := Path(mac, name);
    assert path[18..] == Escape(name) && path[..17] == mac;
    forall i | 0 <= i < |path| && '/' !in mac ensures path[i] == '/' <==> i == 17 {
      if i < 17 {
        assert path[i] == mac[i] && mac[i] in mac;
      } else if i > 17 {
        assert path[i] == Escape(name)[i - 18];
      }
    }
  }

  // backup() and recover() build the path the same way, except that recover()
  // escapes the name between the two strcat calls.  For a 17-character MAC the
  // result is mac/escaped-name whatever the buffer held before.
  lemma PathBuilt(buf: string, mac: string, name: string)
    requires ValidMac(mac) && ValidName(name) && |buf| == 512
    ensures var b := CopyMac(buf, mac);
            && StrLen(b) + 1 < |b|
            && StrLen(Strcat(b, "/")) + |name| < |Strcat(b, "/")|
            && Holds(Strcat(Strcat(b, "/"), Escape(name)), Path(mac, name))
  {
    var b := CopyMac(buf, mac);
    assert b[..MAC_LENGTH] == mac;
    assert Holds(b, mac);
    StrcatHolds(b, mac, "/");
    forall i | 0 <= i < |name| ensures Escape(name)[i] != NUL {
      assert name[i] in name;
    }
    StrcatHolds(Strcat(b, "/"), mac + "/", Escape(name));
  }

  // Two files share a stored path exactly when MACs are equal and the names
  // differ at most in '/' against '@'; so '@'-free names never share one.
  lemma PathsExactly(mac1: string, name1: string, mac2: string, name2: string)
    requires ValidMac(mac1) && ValidMac(mac2)
    ensures Path(mac1, name1) == Path(mac2, name2) <==> mac1 == mac2 && SameEscape(name1, name2)
    ensures '@' !in name1 && '@' !in name2 && Path(mac1, name1) == Path(mac2, name2) ==>
              mac1 == mac2 && name1 == name2
  {
    var p1, p2 := Path(mac1, name1), Path(mac2, name2);
    assert p1[..MAC_LENGTH] == mac1 && p1[MAC_LENGTH + 1..] == Escape(name1);
    assert p2[..MAC_LENGTH] == mac2 && p2[MAC_LENGTH + 1..] == Escape(name2);
    EscapeExactly(name1, name2);
    if '@' !in name1 && '@' !in name2 && SameEscape(name1, name2) {
      NoAtSignSame(name1, name2);
    }
  }
}
