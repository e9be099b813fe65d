/** Python's `ipaddress.IPv4Address` and `ipaddress.IPv6Address` read as validators: which
    texts they accept, as of Python 3.12. The integer an accepted address denotes plays no
    part here. */
module IpAddress {
  import opened Text
  import Decimal

  /** An IPv6 address has eight 16-bit groups. */
  const HextetCount: nat := 8

  /** `_ip_int_from_string` refuses longer IPv6 texts outright. */
  const MaxIpv6Length: nat := 45

  predicate IsHexDigit(c: char) { IsAsciiDigit(c) || 'a' <= c <= 'f' || 'A' <= c <= 'F' }

  /** `_parse_octet`: one to three ASCII digits, no leading zero unless the octet is `0`,
      and a value of at most 255. */
  predicate IsOctet(o: string) {
    && o != []
    && AllDigits(o)
    && |o| <= 3
    && (o == "0" || o[0] != '0')
    && Decimal.DigitsValue(o) <= 255
  }

  /** `IPv4Address(text)` succeeds: no `/`, and exactly four octets between points. */
  predicate IsIpv4(h: string) {
    && '/' !in h
    && h != []
    && var octets := Split(h, '.');
    && |octets| == 4
    && forall i :: 0 <= i < 4 ==> IsOctet(octets[i])
  }

  /** `_parse_hextet`: one to four hex digits (`int('', 16)` fails on the empty text). */
  predicate IsHextet(x: string) {
    && 1 <= |x| <= 4
    && forall k :: 0 <= k < |x| ==> IsHexDigit(x[k])
  }

  /** The groups between colons, once an IPv4 tail has stood in for the last two:
      at most one empty group inside (the `::`), an empty first or last group only as part
      of that `::`, at least one group left for the `::` to cover, and eight groups when
      there is no `::`. */
  predicate GroupsOk(p: seq<string>)
    requires |p| >= 3
  {
    var k := FindFrom(p, "", 1);
    if k < |p| - 1 then
      && (forall j :: k < j < |p| - 1 ==> p[j] != [])
      && var hi := if p[0] == [] then k - 1 else k;
         var lo := if p[|p| - 1] == [] then |p| - k - 2 else |p| - k - 1;
         && (p[0] == [] ==> hi == 0)
         && (p[|p| - 1] == [] ==> lo == 0)
         && hi + lo < HextetCount
         && (forall i :: 0 <= i < hi ==> IsHextet(p[i]))
         && (forall i :: |p| - lo <= i < |p| ==> IsHextet(p[i]))
    else
      && |p| == HextetCount
      && p[0] != [] && p[|p| - 1] != []
      && forall i :: 0 <= i < |p| ==> IsHextet(p[i])
  }

  /** `IPv6Address._ip_int_from_string`: the address without its scope id. A last group
      holding a point must be an IPv4 address and counts as two groups; which two does not
      matter for acceptance, so `0` and `0` stand in for them. Splitting at every colon
      instead of at the first nine accepts the same texts: with ten or more groups both
      refuse. */
  predicate IsIpv6Text(a: string) {
    && a != []
    && |a| <= MaxIpv6Length
    && var raw := Split(a, ':');
    && |raw| >= 3
    && var last := raw[|raw| - 1];
    && ('.' in last ==> IsIpv4(last))
    && var p := if '.' in last then raw[..|raw| - 1] + ["0", "0"] else raw;
    && |p| <= HextetCount + 1
    && GroupsOk(p)
  }

  /** `IPv6Address(text)` succeeds: no `/`; a scope id after the first `%`, when there is
      one, is non-empty and has no further `%`; the address before it is well formed. */
  predicate IsIpv6(h: string) {
    && '/' !in h
    && var i := Find(h, '%');
    && (i < |h| ==> i + 1 < |h| && '%' !in h[i + 1..])
    && IsIpv6Text(h[..i])
  }

  // ----- What the two forms look like -----

  /** An IPv4 address is digits and points only. */
  lemma Ipv4Chars(h: string)
    requires IsIpv4(h)
    ensures forall k :: 0 <= k < |h| ==> IsAsciiDigit(h[k]) || h[k] == '.'
  {
    var octets := Split(h, '.');
    JoinChars(octets, '.', c => IsAsciiDigit(c) || c == '.');
  }

  /** An IPv6 address holds a colon. */
  lemma Ipv6HasColon(h: string)
    requires IsIpv6(h)
    ensures ':' in h
  {
    var i := Find(h, '%');
    var a := h[..i];
    var raw := Split(a, ':');
    assert a == raw[0] + [':'] + Join(raw[1..], ':');
    assert a[|raw[0]|] == ':';
    assert h[|raw[0]|] == ':';
  }

  /** No text is both: `ip_address` never has to choose. */
  lemma Ipv4NotIpv6(h: string)
    ensures !(IsIpv4(h) && IsIpv6(h))
  {
    if IsIpv4(h) && IsIpv6(h) {
      Ipv4Chars(h);
      Ipv6HasColon(h);
      assert false;
    }
  }

  /** An IPv6 address starts with a colon or a hex digit, so never with `v`. */
  lemma Ipv6Start(h: string)
    requires IsIpv6(h)
    ensures h[0] == ':' || IsHexDigit(h[0])
  {
    var i := Find(h, '%');
    var a := h[..i];
    var raw := Split(a, ':');
    var last := raw[|raw| - 1];
    var p := if '.' in last then raw[..|raw| - 1] + ["0", "0"] else raw;
    assert p[0] == raw[0];
    assert a == raw[0] + [':'] + Join(raw[1..], ':');
    if raw[0] == [] {
      assert a[0] == ':';
    } else {
      var k := FindFrom(p, "", 1);
      assert IsHextet(p[0]) by {
        if k < |p| - 1 { assert 0 < (if p[0] == [] then k - 1 else k); }
      }
      assert a[0] == raw[0][0];
    }
    assert h[0] == a[0];
  }

  /** `::1`, the IPv6 loopback address, is accepted. */
  lemma Loopback()
    ensures IsIpv6("::1")
  {
    var h := "::1";
    assert Find(h, '%') == |h|;
    assert h[..|h|] == h;
    LoopbackText();
  }

  lemma LoopbackText()
    ensures IsIpv6Text("::1")
  {
    var raw: seq<string> := ["", "", "1"];
    assert Split("::1", ':') == raw by {
      assert Join(raw, ':') == "::1" by {
        assert raw[1..][1..] == ["1"];
      }
      SplitJoin(raw, ':');
    }
    assert '.' !in raw[2];
    LoopbackGroups();
  }

  /** `::` covers seven groups and `1` is the eighth. */
  lemma LoopbackGroups()
    ensures GroupsOk(["", "", "1"])
  {
    var p: seq<string> := ["", "", "1"];
    assert FindFrom(p, "", 1) == 1;
    assert IsHextet(p[2]);
  }
}
