/** Candidate and pair priorities, with the machine's widths. */
module IcePriority {
  import opened Bytes

  type Uint32 = n: nat | n < 0x1_0000_0000

  // ---- pairs -----------------------------------------------------------

  function Min(x: Uint32, y: Uint32): Uint32 {
    if x < y then x else y
  }

  function Max(x: Uint32, y: Uint32): Uint32 {
    if x > y then x else y
  }

  function Above(x: Uint32, y: Uint32): nat {
    if x > y then 1 else 0
  }

  /** The formula over unbounded numbers; g is the controlling side's priority, d the other's. */
  function Exact(g: Uint32, d: Uint32): nat {
    0xffff_ffff * Min(g, d) + 2 * Max(g, d) + Above(g, d)
  }

  /** As the code computes it, in 64 bits, each side telling its own candidate from the other's. */
  function PairPriority(controlling: bool, local: Uint32, remote: Uint32): nat {
    var g, d := if controlling then local else remote, if controlling then remote else local;
    Wrap64(Wrap64(Wrap64(0xffff_ffff * Min(g, d)) + Wrap64(2 * Max(g, d))) + Above(g, d))
  }

  lemma ExactFits(g: Uint32, d: Uint32)
    ensures Exact(g, d) < 0x1_0000_0000_0000_0000
  {
    var m: nat, x: nat := Min(g, d), Max(g, d);
    assert 0xffff_ffff * m <= 0xffff_ffff * x;
    if g > d {
      assert m <= x - 1;
    }
  }

  /** No 32-bit priorities make the 64-bit formula wrap, and both agents compute the same number for a pair. */
  lemma PairPriorityIsExact(local: Uint32, remote: Uint32)
    ensures PairPriority(true, local, remote) == Exact(local, remote)
    ensures PairPriority(true, local, remote) == PairPriority(false, remote, local)
  {
    ExactFits(local, remote);
    Small64(0xffff_ffff * Min(local, remote));
    Small64(2 * Max(local, remote));
    Small64(0xffff_ffff * Min(local, remote) + 2 * Max(local, remote));
    Small64(Exact(local, remote));
  }

  lemma Small64(n: nat)
    requires n < 0x1_0000_0000_0000_0000
    ensures Wrap64(n) == n
  {
  }

  /** First the smaller priority, then the larger, then which side has it. */
  predicate Before(g: Uint32, d: Uint32, g': Uint32, d': Uint32) {
    || Min(g, d) < Min(g', d')
    || (Min(g, d) == Min(g', d') && Max(g, d) < Max(g', d'))
    || (Min(g, d) == Min(g', d') && Max(g, d) == Max(g', d') && Above(g, d) < Above(g', d'))
  }

  ghost predicate OrdersBelow(n: Uint32) {
    forall g: Uint32, d: Uint32, g': Uint32, d': Uint32 {:trigger Exact(g, d), Exact(g', d')} ::
      g <= n && d <= n && g' <= n && d' <= n ==> (Exact(g, d) < Exact(g', d') <==> Before(g, d, g', d'))
  }

  lemma SmallerMin(g: Uint32, d: Uint32, g': Uint32, d': Uint32)
    requires g <= 0x7fff_ffff && d <= 0x7fff_ffff && Min(g, d) < Min(g', d')
    ensures Exact(g, d) < Exact(g', d')
  {
    assert 0xffff_ffff * Min(g', d') >= 0xffff_ffff * Min(g, d) + 0xffff_ffff;
  }

  lemma OrderIs(g: Uint32, d: Uint32, g': Uint32, d': Uint32)
    requires g <= 0x7fff_ffff && d <= 0x7fff_ffff && g' <= 0x7fff_ffff && d' <= 0x7fff_ffff
    ensures Exact(g, d) < Exact(g', d') <==> Before(g, d, g', d')
  {
    if Min(g, d) < Min(g', d') {
      SmallerMin(g, d, g', d');
    } else if Min(g', d') < Min(g, d) {
      SmallerMin(g', d', g, d);
    }
  }

  /** The number orders pairs as intended exactly as long as priorities stay below 2^31. */
  lemma LexicographicIff(n: Uint32)
    ensures OrdersBelow(n) <==> n <= 0x7fff_ffff
  {
    if n <= 0x7fff_ffff {
      forall g: Uint32, d: Uint32, g': Uint32, d': Uint32 | g <= n && d <= n && g' <= n && d' <= n
        ensures Exact(g, d) < Exact(g', d') <==> Before(g, d, g', d')
      {
        OrderIs(g, d, g', d');
      }
    } else {
      assert Exact(0x8000_0000, 0) == Exact(1, 1);
      assert Before(0x8000_0000, 0, 1, 1);
    }
  }

  // ---- candidates ------------------------------------------------------

  datatype Kind = Host | PeerReflexive | ServerReflexive | Relay | Unspecified

  datatype Tcp = NotTcp | Active | Passive | SimultaneousOpen | NoDirection

  const DEFAULT_TCP_OFFSET := 27

  function KindPreference(k: Kind): nat {
    match k
    case Host => 126
    case PeerReflexive => 110
    case ServerReflexive => 100
    case Relay => 0
    case Unspecified => 0
  }

  /** 16-bit subtraction. */
  function TypePreference(k: Kind, tcp: Tcp, offset: nat): nat
    requires offset < 0x1_0000
  {
    var p := KindPreference(k);
    if p == 0 || tcp.NotTcp? then p else Wrap16(p + (0x1_0000 - offset))
  }

  function Direction(k: Kind, tcp: Tcp): nat {
    match k
    case Host => (match tcp case Active => 6 case Passive => 4 case SimultaneousOpen => 2 case _ => 0)
    case PeerReflexive => (match tcp case SimultaneousOpen => 6 case Active => 4 case Passive => 2 case _ => 0)
    case ServerReflexive => (match tcp case SimultaneousOpen => 6 case Active => 4 case Passive => 2 case _ => 0)
    case _ => 0
  }

  function LocalPreference(k: Kind, tcp: Tcp, relayPreference: nat): nat {
    if k.Relay? then relayPreference
    else if tcp.NotTcp? then 65535
    else 0x2000 * Direction(k, tcp) + 8191
  }

  /** An override, or the formula in 32 bits with a 16-bit component term. */
  function CandidatePriority(override: Uint32, typePreference: nat, localPreference: nat, component: nat): Uint32
    requires component < 0x1_0000
  {
    if override != 0 then override
    else Wrap32(0x100_0000 * typePreference + 0x100 * localPreference + Wrap16(256 + (0x1_0000 - component)))
  }

  /** For components 1 to 256 and an offset no kind is below, the number is what the preferences say, and stays below 2^31. */
  lemma CandidatePriorityInRange(k: Kind, tcp: Tcp, offset: nat, relayPreference: nat, component: nat)
    requires offset <= 100 && relayPreference < 0x1_0000 && 1 <= component <= 256
    ensures var t, l := TypePreference(k, tcp, offset), LocalPreference(k, tcp, relayPreference);
            var p := CandidatePriority(0, t, l, component);
            && p == 0x100_0000 * t + 0x100 * l + (256 - component)
            && p <= 0x7fff_ffff
            && (tcp.NotTcp? || KindPreference(k) == 0 ==> t == KindPreference(k))
            && (!tcp.NotTcp? && KindPreference(k) != 0 ==> t == KindPreference(k) - offset)
  {
    TypeInRange(k, tcp, offset);
    LocalInRange(k, tcp, relayPreference);
    FormulaFits(TypePreference(k, tcp, offset), LocalPreference(k, tcp, relayPreference), component);
  }

  lemma TypeInRange(k: Kind, tcp: Tcp, offset: nat)
    requires offset <= 100
    ensures TypePreference(k, tcp, offset)
         == if tcp.NotTcp? || KindPreference(k) == 0 then KindPreference(k) else KindPreference(k) - offset
  {
  }

  lemma LocalInRange(k: Kind, tcp: Tcp, relayPreference: nat)
    requires relayPreference < 0x1_0000
    ensures LocalPreference(k, tcp, relayPreference) < 0x1_0000
  {
  }

  lemma FormulaFits(t: nat, l: nat, component: nat)
    requires t <= 126 && l < 0x1_0000 && 1 <= component <= 256
    ensures CandidatePriority(0, t, l, component) == 0x100_0000 * t + 0x100 * l + (256 - component) <= 0x7fff_ffff
  {
  }

  /** TCP candidates of every kind rank below their kind by the offset, nothing wrapping around. */
  predicate OffsetSubtracts(offset: nat)
    requires offset < 0x1_0000
  {
    forall k: Kind, tcp: Tcp | !tcp.NotTcp? && KindPreference(k) != 0 ::
      TypePreference(k, tcp, offset) + offset == KindPreference(k)
  }

  /** The offset is configurable; above 100 it wraps, and short of 65510 a TCP candidate then outranks a host. */
  lemma OffsetSubtractsIff(offset: nat)
    requires offset < 0x1_0000
    ensures OffsetSubtracts(offset) <==> offset <= 100
    ensures OffsetSubtracts(DEFAULT_TCP_OFFSET)
    ensures 100 < offset < 0x1_0000 - 26 ==>
              TypePreference(ServerReflexive, Active, offset) > KindPreference(Host)
  {
    var least := TypePreference(ServerReflexive, Active, offset);
    if offset > 100 {
      assert least == 0x1_0000 + 100 - offset;
    }
  }

  /** So on one component the preferred kind wins, then the preferred route. */
  lemma PreferredFirst(t: nat, l: nat, t': nat, l': nat, component: nat)
    requires t <= 126 && t' <= 126 && l < 0x1_0000 && l' < 0x1_0000 && 1 <= component <= 256
    ensures CandidatePriority(0, t, l, component) < CandidatePriority(0, t', l', component) <==> t < t' || (t == t' && l < l')
  {
    FormulaFits(t, l, component);
    FormulaFits(t', l', component);
    if t < t' {
      assert 0x1_0000 * t + l < 0x1_0000 * t';
    } else if t' < t {
      assert 0x1_0000 * t' + l' < 0x1_0000 * t;
    }
  }

  /** Direct candidates first, then those learnt from checks, then those a server saw, then relayed ones. */
  function Directness(k: Kind): nat {
    match k
    case Host => 3
    case PeerReflexive => 2
    case ServerReflexive => 1
    case Relay => 0
    case Unspecified => 0
  }

  /** Of two UDP candidates the more direct has the higher priority, whatever their components. */
  lemma DirectFirst(k: Kind, k': Kind, relayPreference: nat, c: nat, c': nat)
    requires Directness(k) > Directness(k') && relayPreference < 0x1_0000 && 1 <= c <= 256 && 1 <= c' <= 256
    ensures CandidatePriority(0, TypePreference(k, NotTcp, DEFAULT_TCP_OFFSET), LocalPreference(k, NotTcp, relayPreference), c)
          > CandidatePriority(0, TypePreference(k', NotTcp, DEFAULT_TCP_OFFSET), LocalPreference(k', NotTcp, relayPreference), c')
  {
    CandidatePriorityInRange(k, NotTcp, DEFAULT_TCP_OFFSET, relayPreference, c);
    CandidatePriorityInRange(k', NotTcp, DEFAULT_TCP_OFFSET, relayPreference, c');
    LocalInRange(k, NotTcp, relayPreference);
    LocalInRange(k', NotTcp, relayPreference);
  }

  /** Under the default offset a TCP candidate that is not relayed ranks below every such UDP one, and above every relayed one. */
  lemma TcpComesBetween(k: Kind, tcp: Tcp, k': Kind, relayPreference: nat, c: nat, c': nat)
    requires Directness(k) > 0 && Directness(k') > 0 && !tcp.NotTcp?
    requires relayPreference < 0x1_0000 && 1 <= c <= 256 && 1 <= c' <= 256
    ensures var p := CandidatePriority(0, TypePreference(k, tcp, DEFAULT_TCP_OFFSET), LocalPreference(k, tcp, relayPreference), c);
            && p < CandidatePriority(0, TypePreference(k', NotTcp, DEFAULT_TCP_OFFSET), LocalPreference(k', NotTcp, relayPreference), c')
            && p > CandidatePriority(0, TypePreference(Relay, NotTcp, DEFAULT_TCP_OFFSET), LocalPreference(Relay, NotTcp, relayPreference), c')
  {
    CandidatePriorityInRange(k, tcp, DEFAULT_TCP_OFFSET, relayPreference, c);
    CandidatePriorityInRange(k', NotTcp, DEFAULT_TCP_OFFSET, relayPreference, c');
    CandidatePriorityInRange(Relay, NotTcp, DEFAULT_TCP_OFFSET, relayPreference, c');
    LocalInRange(k, tcp, relayPreference);
    LocalInRange(k', NotTcp, relayPreference);
    LocalInRange(Relay, NotTcp, relayPreference);
  }

  /** Section 4.2 of RFC 6544: a host candidate had better connect, one behind a translator had better open simultaneously. */
  lemma DirectionsRank(relayPreference: nat)
    ensures LocalPreference(Host, Active, relayPreference) > LocalPreference(Host, Passive, relayPreference)
          > LocalPreference(Host, SimultaneousOpen, relayPreference) > LocalPreference(Host, NoDirection, relayPreference)
    ensures forall k: Kind :: k.PeerReflexive? || k.ServerReflexive? ==>
              LocalPreference(k, SimultaneousOpen, relayPreference) > LocalPreference(k, Active, relayPreference)
              > LocalPreference(k, Passive, relayPreference) > LocalPreference(k, NoDirection, relayPreference)
  {
  }
}
