/** What an access control list means: networks with values, searched by longest match. */
module AclSpec {
  import opened Text
  import opened Word
  import opened Cidr

  const NO_VALUE: string := ""

  type Table = map<Prefix, string>

  /** Storing the empty string is storing nothing: search reads it as "no value here". */
  function Store(t: Table, p: Prefix, value: string): Table {
    if value == NO_VALUE then t - {p} else t[p := value]
  }

  /** Whether network `p` contains the network or address `q`: `p` is `q` or one of the networks around it. */
  predicate Covers(p: Prefix, q: Prefix) {
    p == q || (q.Sub? && Covers(p, q.up))
  }

  /** Linear scan over the leading bits of an address, longest first. */
  function LongestMatch(t: Table, address: Prefix): string {
    if address in t then t[address]
    else match address
         case Top => NO_VALUE
         case Sub(up, _) => LongestMatch(t, up)
  }

  lemma {:induction false} CoverIsNoLonger(p: Prefix, q: Prefix)
    requires Covers(p, q)
    ensures p.Length() <= q.Length() && (p.Length() == q.Length() ==> p == q)
  {
    if p != q {
      CoverIsNoLonger(p, q.up);
    }
  }

  /** `p` is the longest stored network that contains `address`. */
  ghost predicate Longest(t: Table, p: Prefix, address: Prefix) {
    p in t && Covers(p, address) && forall q :: q in t && Covers(q, address) ==> q.Length() <= p.Length()
  }

  /** The scan finds the longest stored network around the address, and finds nothing exactly when there is none. */
  lemma {:induction false} LongestMatchIsLongest(t: Table, address: Prefix)
    ensures (exists p :: p in t && Covers(p, address)) ==> exists p :: Longest(t, p, address)
    ensures forall p :: Longest(t, p, address) ==> LongestMatch(t, address) == t[p]
    ensures (forall p :: p in t ==> !Covers(p, address)) ==> LongestMatch(t, address) == NO_VALUE
  {
    if address in t {
      forall q | Covers(q, address)
        ensures q.Length() <= address.Length() && (q.Length() == address.Length() ==> q == address)
      {
        CoverIsNoLonger(q, address);
      }
      assert Longest(t, address, address);
    } else if address.Sub? {
      LongestMatchIsLongest(t, address.up);
      assert forall p :: p in t ==> (Covers(p, address) <==> Covers(p, address.up));
      assert forall p :: Longest(t, p, address) <==> Longest(t, p, address.up);
    }
  }

  predicate Valued(t: Table) { forall p :: p in t ==> t[p] != NO_VALUE }

  /** Whether an address is turned away: some stored network covers it. */
  predicate Forbidden(t: Table, key: uint32) {
    LongestMatch(t, Bits(key, ADDRESS_BITS)) != NO_VALUE
  }

  lemma MatchIffCovered(t: Table, address: Prefix)
    requires Valued(t)
    ensures LongestMatch(t, address) != NO_VALUE <==> exists p :: p in t && Covers(p, address)
  {
    LongestMatchIsLongest(t, address);
    hide LongestMatch, Covers;
  }

  lemma ForbiddenIffCovered(t: Table, key: uint32)
    requires Valued(t)
    ensures Forbidden(t, key) <==> exists p :: p in t && Covers(p, Bits(key, ADDRESS_BITS))
  {
    MatchIffCovered(t, Bits(key, ADDRESS_BITS));
  }

  /** The networks around the leading bits of an address. */
  lemma {:induction false} AroundBits(key: uint32, n: nat, p: Prefix)
    ensures Covers(p, Bits(key, n)) <==> p.Length() <= n && p == Bits(key, p.Length())
  {
    if n > 0 {
      AroundBits(key, n - 1, p);
    }
  }

  // ---------------------------------------------------------------- networks turned away as a whole

  /** A stored network covers `p`, or `p` is no single address and both its halves are turned away as a whole. */
  ghost predicate Blanketed(t: Table, p: Prefix)
    decreases ADDRESS_BITS - p.Length()
  {
    || (exists q :: q in t && Covers(q, p))
    || (p.Length() < ADDRESS_BITS && Blanketed(t, Sub(p, false)) && Blanketed(t, Sub(p, true)))
  }

  lemma {:induction false} CoversThrough(p: Prefix, q: Prefix, r: Prefix)
    requires Covers(p, q) && Covers(q, r)
    ensures Covers(p, r)
    decreases r
  {
    if q != r {
      CoversThrough(p, q, r.up);
    }
  }

  /** Below a network there is one of its halves. */
  lemma {:induction false} CoversByHalf(p: Prefix, r: Prefix)
    requires Covers(p, r) && p != r
    ensures Covers(Sub(p, false), r) || Covers(Sub(p, true), r)
    decreases r
  {
    if p != r.up {
      CoversByHalf(p, r.up);
    }
  }

  lemma {:induction false} BlanketedBelow(t: Table, p: Prefix, address: Prefix)
    requires Blanketed(t, p) && Covers(p, address) && address.Length() == ADDRESS_BITS
    ensures exists q :: q in t && Covers(q, address)
    decreases ADDRESS_BITS - p.Length()
  {
    if q :| q in t && Covers(q, p) {
      CoversThrough(q, p, address);
    } else {
      CoversByHalf(p, address);
      BlanketedBelow(t, Sub(p, Covers(Sub(p, true), address)), address);
    }
  }

  /** A network that is not turned away as a whole has an address that is let in. */
  lemma {:induction false} Unblanketed(t: Table, p: Prefix) returns (address: Prefix)
    requires !Blanketed(t, p) && p.Length() <= ADDRESS_BITS
    ensures Covers(p, address) && address.Length() == ADDRESS_BITS && forall q :: q in t ==> !Covers(q, address)
    decreases ADDRESS_BITS - p.Length()
  {
    if p.Length() == ADDRESS_BITS {
      address := p;
    } else {
      var half := Sub(p, Blanketed(t, Sub(p, false)));
      address := Unblanketed(t, half);
      CoversThrough(p, half, address);
    }
  }

  /** Every address of the network is turned away exactly when the network is blanketed. */
  lemma BlanketedMeans(t: Table, p: Prefix)
    requires Valued(t) && p.Length() <= ADDRESS_BITS
    ensures Blanketed(t, p) <==> forall key: uint32 :: Covers(p, Bits(key, ADDRESS_BITS)) ==> Forbidden(t, key)
  {
    hide LongestMatch, Bits, Covers, Blanketed, Forbidden;
    if Blanketed(t, p) {
      forall key: uint32 | Covers(p, Bits(key, ADDRESS_BITS))
        ensures Forbidden(t, key)
      {
        BlanketedBelow(t, p, Bits(key, ADDRESS_BITS));
        ForbiddenIffCovered(t, key);
      }
    } else {
      var address := Unblanketed(t, p);
      var key := NetworkAddress(address);
      BitsOfNetworkAddress(address);
      ForbiddenIffCovered(t, key);
    }
  }

  // ---------------------------------------------------------------- the list with its text index

  /** The live list: the networks in the tree, and the texts in `Record`. */
  datatype Acl = Acl(stored: Table, record: set<string>)

  const EMPTY_ACL := Acl(map[], {})

  datatype AclResult = Done | InvalidIpAddress | InvalidNetMask | MaskSyntax | CantFindIpNet | Crashed

  function AddResult(ipNet: string): AclResult {
    match ParseNet(ipNet)
    case AddressPanic => Crashed
    case BadAddress => InvalidIpAddress
    case MaskNotANumber => MaskSyntax
    case BadMask => InvalidNetMask
    case Net(_, _) => Done
  }

  function AddNet(a: Acl, ipNet: string, value: string): Acl {
    if AddResult(ipNet).Done? then Acl(Store(a.stored, PathOf(ipNet), value), a.record + {ipNet}) else a
  }

  /** A root without children: nothing is stored below it. */
  predicate OnlyRoot(t: Table) { forall p :: p in t ==> p == Top }

  /** Delete's answer on a pruned tree; `/0` on a childless root follows the root's nil parent. */
  function DeleteResult(a: Acl, ipNet: string): AclResult {
    match ParseNet(ipNet)
    case AddressPanic => Crashed
    case BadAddress => InvalidIpAddress
    case MaskNotANumber => InvalidNetMask
    case BadMask => InvalidNetMask
    case Net(_, _) =>
      if PathOf(ipNet) == Top && OnlyRoot(a.stored) then Crashed
      else if PathOf(ipNet) in a.stored then Done
      else CantFindIpNet
  }

  function DeleteNet(a: Acl, ipNet: string): Acl {
    if DeleteResult(a, ipNet).Done? then Acl(a.stored - {PathOf(ipNet)}, a.record - {ipNet}) else a
  }

  /**
   * How Add and Delete refuse texts: one without mask, and one with a mask that is no number or out of range. A second
   * slash and what follows it are passed over.
   */
  lemma RefusedTexts(a: Acl, address: string, mask: string, more: string)
    requires '/' !in address && '/' !in mask && ParseAddress(address).Address?
    ensures AddResult(address) == InvalidIpAddress == DeleteResult(a, address)
    ensures var text := address + ['/'] + mask;
            && AddResult(text) == (match Atoi(mask)
                                   case None => MaskSyntax
                                   case Some(n) => if 0 <= n <= ADDRESS_BITS then Done else InvalidNetMask)
            && (!AddResult(text).Done? ==> DeleteResult(a, text) == InvalidNetMask)
            && ParseNet(text + ['/'] + more) == ParseNet(text)
  {
    hide ParseAddress, Atoi, Split;
    SplitWhole(address, '/');
    SplitAtFirst(address, '/', mask);
    SplitWhole(mask, '/');
    SplitAtFirst(mask, '/', more);
    SplitAtFirst(address, '/', mask + ['/'] + more);
    assert address + ['/'] + (mask + ['/'] + more) == address + ['/'] + mask + ['/'] + more;
  }

  /** Texts whose address is no number, or reads past its fourth. */
  lemma RefusedAddresses(a: Acl, address: string, rest: string)
    requires '/' !in address && !ParseAddress(address).Address?
    ensures var r := if ParseAddress(address).NotANumber? then InvalidIpAddress else Crashed;
            AddResult(address + ['/'] + rest) == r == DeleteResult(a, address + ['/'] + rest)
  {
    hide ParseAddress, Atoi, Split;
    SplitAtFirst(address, '/', rest);
  }
}
