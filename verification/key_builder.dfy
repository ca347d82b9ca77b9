/** `akey_t`: the key builder writing into a caller's buffer. */
module KeyBuilder {
  import opened Sorting
  import opened Dot11
  import opened Text
  import opened AlertKey

  const NUL: char := 0 as char

  /** The C string a buffer holds: up to its first NUL. */
  function CStr(b: seq<char>): string {
    if b == [] || b[0] == NUL then [] else [b[0]] + CStr(b[1..])
  }

  lemma {:induction false} CStrIs(b: seq<char>, n: nat)
    requires n < |b| && b[n] == NUL && forall i :: 0 <= i < n ==> b[i] != NUL
    ensures CStr(b) == b[..n]
  {
    if n == 0 {
    } else {
      CStrIs(b[1..], n - 1);
      assert b[..n] == [b[0]] + b[1..][..n - 1];
    }
  }

  class Builder {
    const buf: array<char>
    var len: nat
    var overflow: bool
    ghost const rule: string
    ghost var comps: seq<Comp>

    /** What the fields stand for. */
    ghost function View(): Buf
      reads this, buf
      requires len <= buf.Length
    {
      Buf(buf.Length, buf[..len], overflow)
    }

    /** The text so far is NUL-free and terminated. */
    ghost predicate Terminated()
      reads this, buf
    {
      && (if buf.Length == 0 then len == 0 && overflow else len < buf.Length && buf[len] == NUL)
      && forall i :: 0 <= i < len ==> buf[i] != NUL
    }

    ghost predicate Valid()
      reads this, buf
    {
      Terminated() && View() == Build(buf.Length, rule, comps)
    }

    /** `akey_begin`. An empty buffer stands for a NULL one too. */
    constructor (buf: array<char>, rule: CString)
      modifies buf
      ensures Valid() && this.buf == buf && this.rule == rule && comps == []
    {
      this.buf, this.rule, comps := buf, rule, [];
      len, overflow := 0, buf.Length == 0;
      new;
      if buf.Length > 0 { buf[0] := NUL; }
      var ok := IsToken(rule);
      if !ok {
        overflow := true;
      } else {
        Append(rule);
      }
    }

    /** `put`. */
    method Append(s: CString)
      requires Terminated()
      modifies this`len, this`overflow, buf
      ensures Terminated() && View() == AlertKey.Put(old(View()), s)
    {
      if overflow { return; }
      if len + |s| + 1 > buf.Length {
        overflow := true;
        return;
      }
      ghost var was := buf[..len];
      forall i | 0 <= i < |s| { buf[len + i] := s[i]; }
      buf[len + |s|] := NUL;
      len := len + |s|;
      assert buf[..len] == was + s;
    }

    method AppendTwo(p: CString, q: CString)
      requires Terminated()
      modifies this`len, this`overflow, buf
      ensures Terminated() && View() == PutAll(old(View()), [p, q])
    {
      hide PutAll;
      PutTwo(View(), p, q);
      Append(p);
      Append(q);
    }

    method AppendFour(p: CString, q: CString, r: CString, s: CString)
      requires Terminated()
      modifies this`len, this`overflow, buf
      ensures Terminated() && View() == PutAll(old(View()), [p, q, r, s])
    {
      hide PutAll;
      PutFour(View(), p, q, r, s);
      Append(p);
      Append(q);
      Append(r);
      Append(s);
    }

    method Address(mac: Mac)
      requires Valid()
      modifies this`len, this`overflow, this`comps, buf
      ensures Valid() && comps == old(comps) + [Comp.Address(mac)]
    {
      hide MacText, Build;
      BuildPush(buf.Length, rule, comps, Comp.Address(mac));
      AppendTwo(":", MacText(mac));
      comps := comps + [Comp.Address(mac)];
    }

    method Number(v: U32)
      requires Valid()
      modifies this`len, this`overflow, this`comps, buf
      ensures Valid() && comps == old(comps) + [Comp.Number(v)]
    {
      hide Decimal, Build;
      BuildPush(buf.Length, rule, comps, Comp.Number(v));
      AppendTwo(":", Decimal(v));
      comps := comps + [Comp.Number(v)];
    }

    /** A token that is not one poisons the key and writes nothing. */
    method Token(tok: CString)
      requires Valid()
      modifies this`len, this`overflow, this`comps, buf
      ensures Valid() && comps == old(comps) + [Comp.Token(tok)]
    {
      hide TokOk, Build;
      BuildPush(buf.Length, rule, comps, Comp.Token(tok));
      var ok := IsToken(tok);
      if !ok {
        overflow := true;
      } else {
        AppendTwo(":", tok);
      }
      comps := comps + [Comp.Token(tok)];
    }

    /** Two digits an octet, stopping at the first that does not fit. */
    method Raw(bytes: seq<Byte>)
      requires Valid()
      modifies this`len, this`overflow, this`comps, buf
      ensures Valid() && comps == old(comps) + [Comp.Raw(bytes)]
    {
      hide Build, RawPieces, PutAll;
      BuildPush(buf.Length, rule, comps, Comp.Raw(bytes));
      AppendRaw(bytes);
      comps := comps + [Comp.Raw(bytes)];
    }

    method AppendRaw(bytes: seq<Byte>)
      requires Terminated()
      modifies this`len, this`overflow, buf
      ensures Terminated() && View() == PutAll(old(View()), [":"] + RawPieces(bytes))
    {
      hide Hex, RawPieces, PutAll;
      ghost var b := View();
      RawNone(b);
      Append(":");
      var i := 0;
      while i < |bytes| && !overflow
        invariant i <= |bytes| && Terminated()
        invariant View() == PutAll(b, [":"] + RawPieces(bytes[..i]))
      {
        RawNext(b, bytes, i);
        Append(Hex(bytes[i], 2));
        i := i + 1;
      }
      RawRest(b, bytes, i);
    }

    method Remote(s: CString, keep: nat)
      requires Valid()
      modifies this`len, this`overflow, this`comps, buf
      ensures Valid() && comps == old(comps) + [Comp.Remote(s, keep)]
    {
      hide Build, Visible, HashOf, Hex;
      BuildPush(buf.Length, rule, comps, Comp.Remote(s, keep));
      AppendRemote(s, keep);
      comps := comps + [Comp.Remote(s, keep)];
    }

    method AppendRemote(s: CString, keep: nat)
      requires Terminated()
      modifies this`len, this`overflow, buf
      ensures Terminated() && View() == PutAll(old(View()), RemotePieces(s, keep))
    {
      hide Visible, HashOf, Hex;
      var visible := Sanitise(s, keep);
      var h := HashString(s);
      AppendFour(":", visible, ":", Hex(h, 16));
    }

    /** An address as inet_ntop prints one, bracketed if it has colons; anything
        else goes the way of a remote string. */
    method Ip(ip: CString)
      requires Valid()
      modifies this`len, this`overflow, this`comps, buf
      ensures Valid() && comps == old(comps) + [Comp.Ip(ip)]
    {
      hide Build, IpShaped, RemotePieces, PutAll;
      BuildPush(buf.Length, rule, comps, Comp.Ip(ip));
      var ok, colon := ScanIp(ip);
      if !ok {
        AppendRemote(ip, IP_FALLBACK_KEEP);
      } else if colon {
        AppendFour(":", "[", ip, "]");
      } else {
        AppendTwo(":", ip);
      }
      comps := comps + [Comp.Ip(ip)];
    }

    method Members(items: seq<CString>)
      requires Valid()
      modifies this`len, this`overflow, this`comps, buf
      ensures Valid() && comps == old(comps) + [Comp.Members(items)]
    {
      hide Build, Decimal, Hex, SetHash, PutAll;
      BuildPush(buf.Length, rule, comps, Comp.Members(items));
      if |items| > SET_MAX {
        overflow := true;
      } else {
        var h := HashMembers(items);
        AppendFour(":", Decimal(|items|), ":", Hex(h, 16));
      }
      comps := comps + [Comp.Members(items)];
    }

    /** `akey_end`: the string the buffer is left holding. */
    method End() returns (key: string)
      requires Valid()
      modifies buf
      ensures key == Finish(Build(buf.Length, rule, comps))
      ensures buf.Length > 0 ==> CStr(buf[..]) == key
    {
      if buf.Length == 0 { return ""; }
      if overflow {
        buf[0] := NUL;
        CStrIs(buf[..], 0);
        key := "";
      } else {
        CStrIs(buf[..], len);
        key := buf[..len];
      }
    }
  }

  // ----- The loops ----------------------------------------------------------

  /** `tok_ok`. */
  method IsToken(s: string) returns (ok: bool)
    ensures ok == TokOk(s)
  {
    var n := 0;
    while n < |s|
      invariant n <= |s| && forall i :: 0 <= i < n ==> TokChar(s[i])
    {
      if !TokChar(s[n]) { return false; }
      n := n + 1;
    }
    ok := 0 < n <= TOK_MAX;
  }

  method Sanitise(s: CString, keep: nat) returns (r: string)
    ensures r == Visible(s, keep)
  {
    var limit := if keep > REMOTE_MAX then REMOTE_MAX else keep;
    var m := if |s| < limit then |s| else limit;
    r := [];
    for i := 0 to m
      invariant |r| == i && forall j :: 0 <= j < i ==> r[j] == if Keeps(s[j]) then s[j] else '_'
    {
      r := r + [if Keeps(s[i]) then s[i] else '_'];
    }
  }

  method HashString(s: CString) returns (h: Fnv.U64)
    ensures h == HashOf(s)
  {
    h := Fnv.Run(Octets(s), Fnv.OFFSET);
  }

  method ScanIp(ip: string) returns (ok: bool, colon: bool)
    ensures ok == IpShaped(ip)
    ensures ok ==> colon == (':' in ip)
  {
    ok, colon := 0 < |ip| <= 45, false;
    var i := 0;
    while ok && i < |ip|
      invariant i <= |ip| && (ok ==> 0 < |ip| <= 45)
      invariant ok ==> forall j :: 0 <= j < i ==> IpChar(ip[j])
      invariant ok ==> colon == (':' in ip[..i])
      invariant !ok ==> !IpShaped(ip)
      decreases |ip| - i
    {
      assert ip[..i + 1] == ip[..i] + [ip[i]];
      if ip[i] == ':' {
        colon := true;
      } else if !IpChar(ip[i]) {
        ok := false;
      }
      i := i + 1;
    }
    assert ok ==> ip[..i] == ip;
  }

  /** Insertion-sorts a copy of the member pointers. */
  method SortMembers(items: seq<CString>) returns (sorted: seq<CString>)
    ensures sorted == Canonical(items)
  {
    var a := new string[|items|](i requires 0 <= i < |items| => items[i]);
    ghost var given: seq<string> := items;
    assert a[..|items|] == given;
    InsertionSort(a, |items|, Before());
    SortKeepsStrings(items);
    assert a[..] == a[..|items|];
    sorted := a[..];
  }

  /** Hashes each sorted member with its terminator. */
  method HashMembers(items: seq<CString>) returns (h: Fnv.U64)
    ensures h == SetHash(items)
  {
    hide Canonical, Stream, Fnv.Hash, Octets;
    var sorted := SortMembers(items);
    h := Fnv.OFFSET;
    HashNothing(sorted);
    for i := 0 to |sorted|
      invariant h == Fnv.Hash(Stream(sorted[..i]), Fnv.OFFSET)
    {
      StreamNext(sorted, i);
      Fnv.HashConcat(Stream(sorted[..i]), Octets(sorted[i]) + [0], Fnv.OFFSET);
      h := Fnv.Run(Octets(sorted[i]) + [0], h);
    }
    assert sorted[..|sorted|] == sorted;
  }

  lemma HashNothing(items: seq<CString>)
    ensures Fnv.Hash(Stream(items[..0]), Fnv.OFFSET) == Fnv.OFFSET
  {
  }

  lemma StreamNext(items: seq<CString>, i: nat)
    requires i < |items|
    ensures Stream(items[..i + 1]) == Stream(items[..i]) + (Octets(items[i]) + [0])
  {
    assert items[..i + 1][..i] == items[..i];
    assert Stream(items[..i]) + Octets(items[i]) + [0] == Stream(items[..i]) + (Octets(items[i]) + [0]);
  }

  // ----- Appends in a row ---------------------------------------------------

  lemma BuildPush(n: nat, rule: string, comps: seq<Comp>, c: Comp)
    ensures Build(n, rule, comps + [c]) == Add(Build(n, rule, comps), c)
  {
    assert (comps + [c])[..|comps|] == comps;
  }

  lemma PutTwo(b: Buf, p: string, q: string)
    ensures PutAll(b, [p, q]) == Put(Put(b, p), q)
  {
    assert [p, q][..1] == [p] && [p][..0] == [];
    assert PutAll(b, [p]) == Put(PutAll(b, []), p);
  }

  lemma PutFour(b: Buf, p: string, q: string, r: string, s: string)
    ensures PutAll(b, [p, q, r, s]) == Put(Put(Put(Put(b, p), q), r), s)
  {
    assert [p, q, r, s][..3] == [p, q, r] && [p, q, r][..2] == [p, q];
    PutTwo(b, p, q);
  }

  lemma RawNone(b: Buf)
    ensures PutAll(b, [":"] + RawPieces([])) == Put(b, ":")
  {
    assert [":"] + RawPieces([]) == [":"] && [":"][..0] == [];
  }

  lemma RawNext(b: Buf, bytes: seq<Byte>, i: nat)
    requires i < |bytes|
    ensures PutAll(b, [":"] + RawPieces(bytes[..i + 1])) == Put(PutAll(b, [":"] + RawPieces(bytes[..i])), Hex(bytes[i], 2))
  {
    assert bytes[..i + 1][..i] == bytes[..i];
    var (f, x) := ([":"] + RawPieces(bytes[..i]), Hex(bytes[i], 2));
    assert [":"] + RawPieces(bytes[..i + 1]) == f + [x];
    assert (f + [x])[..|f|] == f;
  }

  /** Stopping early changes nothing: the octets not reached would not have been
      written either. */
  lemma {:induction false} RawRest(b: Buf, bytes: seq<Byte>, i: nat)
    requires i <= |bytes|
    requires i < |bytes| ==> PutAll(b, [":"] + RawPieces(bytes[..i])).overflow
    ensures PutAll(b, [":"] + RawPieces(bytes)) == PutAll(b, [":"] + RawPieces(bytes[..i]))
    decreases |bytes| - i
  {
    if i == |bytes| {
      assert bytes[..i] == bytes;
    } else {
      RawNext(b, bytes, i);
      RawRest(b, bytes, i + 1);
    }
  }
}
