/** The in-addr.arpa names of sub-zones: what they say about addresses. */
module ZoneNames {
  import Arithmetic
  import opened Text
  import opened CString
  import opened Ipv4
  import opened ZoneBlocks
  import opened ReverseNames

  const HOST_LEN: nat := 64

  /** The in-addr.arpa name of the block that an address begins. */
  function NameOf(first: Address, prefix: nat): string
    requires 8 <= prefix <= 24
  {
    FieldsOfPrint(first);
    InAddrName(Print(first), prefix)
  }

  /** The octets a name keeps, last first, then the two labels of the domain: section 3.5 of RFC 1035. */
  function Labels(first: Address, prefix: nat): (r: seq<string>)
    requires 8 <= prefix <= 24
    ensures Plain(r) && 0 < |r|
  {
    var f := QuadFields(first);
    if prefix > 16 then [f[2], f[1], f[0], "in-addr", "arpa"]
    else if prefix > 8 then [f[1], f[0], "in-addr", "arpa"]
    else [f[0], "in-addr", "arpa"]
  }

  lemma ReversedFields(a: string, b: string, c: string)
    requires |a| <= 3 && |b| <= 3 && |c| <= 3
    ensures Reversed([a]) == JoinDots([a])
    ensures Reversed([a, b]) == JoinDots([b, a])
    ensures Reversed([a, b, c]) == JoinDots([c, b, a])
  {
    assert [a, b][..1] == [a] && [b, a][1..] == [a];
    assert [a, b, c][..2] == [a, b] && [c, b, a][1..] == [b, a];
  }

  lemma JoinUnderArpa(fs: seq<string>)
    requires 0 < |fs|
    ensures JoinDots(fs + ["in-addr", "arpa"]) == JoinDots(fs) + ARPA
  {
    JoinAppend(fs, ["in-addr", "arpa"]);
    ArpaLabels();
    JoinThree(JoinDots(fs), ".", JoinDots(["in-addr", "arpa"]));
    hide JoinDots;
  }

  lemma ArpaLabels()
    ensures "." + JoinDots(["in-addr", "arpa"]) == ARPA
  {
    assert ["in-addr", "arpa"][1..] == ["arpa"];
    assert JoinDots(["in-addr", "arpa"]) == "in-addr" + "." + "arpa";
  }

  /** The name is the leading octets of the address, reversed, under in-addr.arpa. */
  lemma NameIsReversedOctets(first: Address, prefix: nat)
    requires 8 <= prefix <= 24
    ensures NameOf(first, prefix) == JoinDots(Labels(first, prefix))
  {
    FieldsOfPrint(first);
    var f := QuadFields(first);
    assert |f[0]| <= 3 && |f[1]| <= 3 && |f[2]| <= 3;
    hide QuadFields, Print, Fields, OctetText, Reversed, JoinDots;
    ReversedFields(f[0], f[1], f[2]);
    if prefix > 16 {
      assert f[..3] == [f[0], f[1], f[2]] && Labels(first, prefix) == [f[2], f[1], f[0]] + ["in-addr", "arpa"];
      JoinUnderArpa([f[2], f[1], f[0]]);
    } else if prefix > 8 {
      assert f[..2] == [f[0], f[1]] && Labels(first, prefix) == [f[1], f[0]] + ["in-addr", "arpa"];
      JoinUnderArpa([f[1], f[0]]);
    } else {
      assert f[..1] == [f[0]] && Labels(first, prefix) == [f[0]] + ["in-addr", "arpa"];
      JoinUnderArpa([f[0]]);
    }
  }

  lemma NameFits(first: Address, prefix: nat)
    requires 8 <= prefix <= 24
    ensures |NameOf(first, prefix)| < HOST_LEN
  {
    NameIsReversedOctets(first, prefix);
    var f := QuadFields(first);
    assert |f[0]| <= 3 && |f[1]| <= 3 && |f[2]| <= 3;
    hide QuadFields, OctetText;
    JoinedLength(Labels(first, prefix), 7);
  }

  lemma {:induction false} JoinedLength(fs: seq<string>, n: nat)
    requires 0 < |fs| && forall i :: 0 <= i < |fs| ==> |fs[i]| <= n
    ensures |JoinDots(fs)| <= |fs| * (n + 1)
  {
    if |fs| > 1 {
      JoinedLength(fs[1..], n);
      assert |fs| * (n + 1) == (|fs| - 1) * (n + 1) + (n + 1);
    }
  }

  /** Two names are equal only for blocks of the same size that hold the same addresses, when each is cut to its
      leading octets. */
  lemma NameInjective(x: Address, p: nat, y: Address, q: nat)
    requires 8 <= p <= 24 && 8 <= q <= 24
    ensures NameOf(x, p) == NameOf(y, q)
            <==> SubZoneSize(p) == SubZoneSize(q) && x / SubZoneSize(p) == y / SubZoneSize(q)
  {
    NameIsReversedOctets(x, p);
    NameIsReversedOctets(y, q);
    var lx, ly := Labels(x, p), Labels(y, q);
    if JoinDots(lx) == JoinDots(ly) { JoinInjective(lx, ly); }
    var k := 4 - DroppedFields(p);
    LeadingFields(x, y, k);
    LeadingOctets(x, y);
    hide NameOf, OctetsOf;
    var fx, fy := QuadFields(x), QuadFields(y);
    hide QuadFields, OctetText;
    SameLabels(fx, fy, p, q);
  }

  lemma SameLabels(fx: seq<string>, fy: seq<string>, p: nat, q: nat)
    requires 8 <= p <= 24 && 8 <= q <= 24 && |fx| == 4 && |fy| == 4
    ensures SubZoneSize(p) == SubZoneSize(q) <==> DroppedFields(p) == DroppedFields(q)
    ensures fx[..1] == fy[..1] <==> fx[0] == fy[0]
    ensures fx[..2] == fy[..2] <==> fx[0] == fy[0] && fx[1] == fy[1]
    ensures fx[..3] == fy[..3] <==> fx[0] == fy[0] && fx[1] == fy[1] && fx[2] == fy[2]
  {
    assert fx[..1] == [fx[0]] && fy[..1] == [fy[0]];
    assert fx[..2] == [fx[0], fx[1]] && fy[..2] == [fy[0], fy[1]];
    assert fx[..3] == [fx[0], fx[1], fx[2]] && fy[..3] == [fy[0], fy[1], fy[2]];
  }

  // ---- Names and intervals ------------------------------------------------

  /** An address has the name of sub-zone i exactly when it lies in that sub-zone, for all addresses, exactly when the
      zone starts on a sub-zone boundary. */
  lemma NameExact(start: Address, prefix: nat, i: nat)
    requires 8 <= prefix <= 24 && SubZoneStart(start, prefix, i) < SPACE
    ensures (forall ip: Address ::
               NameOf(ip, prefix) == NameOf(SubZoneStart(start, prefix, i), prefix)
               <==> InSubZone(ip, start, prefix, i))
            <==> start % SubZoneSize(prefix) == 0
  {
    var first: Address := SubZoneStart(start, prefix, i);
    forall ip: Address ensures NameOf(ip, prefix) == NameOf(first, prefix) <==> InBlockOf(ip, first, prefix) {
      NameIsBlock(ip, first, prefix);
    }
    hide NameOf, InBlockOf, InSubZone, SubZoneStart;
    SubZoneIsBlockExactly(start, prefix, i);
  }

  /** The name of the address is that of some sub-zone. */
  ghost predicate Named(ip: Address, start: Address, prefix: nat)
    requires 8 <= prefix <= 24
  {
    exists i: nat :: i < GetZoneIndex(prefix).value && SubZoneStart(start, prefix, i) < SPACE
                     && NameOf(ip, prefix) == NameOf(SubZoneStart(start, prefix, i), prefix)
  }

  /** The names of all sub-zones are the names of exactly the addresses of the zone, under the same condition. */
  lemma NamesCoverZone(start: Address, prefix: nat)
    requires 8 <= prefix <= 24 && start + NetRange(prefix) <= SPACE
    ensures (forall ip: Address :: Named(ip, start, prefix) <==> InZone(ip, start, prefix))
            <==> start % SubZoneSize(prefix) == 0
  {
    forall ip: Address ensures Named(ip, start, prefix) <==> InSomeBlock(ip, start, prefix) {
      NamedInSomeBlock(ip, start, prefix);
    }
    hide Named, InSomeBlock, InZone, NetRange;
    BlocksAreZoneExactly(start, prefix);
  }

  lemma NamedInSomeBlock(ip: Address, start: Address, prefix: nat)
    requires 8 <= prefix <= 24 && start + NetRange(prefix) <= SPACE
    ensures Named(ip, start, prefix) <==> InSomeBlock(ip, start, prefix)
  {
    hide NameOf, InBlockOf, NetRange;
    forall i: nat | i < GetZoneIndex(prefix).value
      ensures SubZoneStart(start, prefix, i) < SPACE
      ensures NameOf(ip, prefix) == NameOf(SubZoneStart(start, prefix, i), prefix)
              <==> InBlockOf(ip, SubZoneStart(start, prefix, i), prefix)
    {
      SubZoneFits(start, prefix, i);
      NameIsBlock(ip, SubZoneStart(start, prefix, i), prefix);
    }
  }

  lemma NameIsBlock(ip: Address, first: Address, prefix: nat)
    requires 8 <= prefix <= 24
    ensures NameOf(ip, prefix) == NameOf(first, prefix) <==> InBlockOf(ip, first, prefix)
  {
    NameInjective(ip, prefix, first, prefix);
  }

  /** Blocks that do not overlap have different names. */
  lemma ApartNamesDiffer(x: Address, p: nat, y: Address, q: nat)
    requires 8 <= p <= 24 && 8 <= q <= 24
    requires x + SubZoneSize(p) <= y || y + SubZoneSize(q) <= x
    ensures NameOf(x, p) != NameOf(y, q)
  {
    NameInjective(x, p, y, q);
    hide NameOf;
    FarApart(x, y, SubZoneSize(p));
  }

  lemma FarApart(x: nat, y: nat, size: nat)
    requires 0 < size
    ensures x + size <= y || y + size <= x ==> x / size != y / size
  {
    Arithmetic.DivisionParts(x, size);
    Arithmetic.DivisionParts(y, size);
  }
}
