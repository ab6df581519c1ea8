/** Choosing the inbound peer to drop when the slots are full. */
module Eviction {
  import opened Common
  import opened Limbs

  const PROTECT_BY_NETGROUP: nat := 4
  const PROTECT_BY_PING: nat := 8
  const PROTECT_BY_TX: nat := 4
  const PROTECT_BY_BLOCKS: nat := 4
  const NO_PING: int := 0x7FFF_FFFF_FFFF_FFFF

  type Four = b: seq<Byte> | |b| == 4 witness [0, 0, 0, 0]
  type Sixteen = b: seq<Byte> | |b| == 16 witness seq(16, _ => 0)

  /** What the system's address parser makes of an address. */
  datatype Parsed = V4(four: Four) | V6(sixteen: Sixteen) | Other

  /** A connection as the table of nodes holds it. */
  datatype Node = Node(
    id: nat, fullyConnected: bool, inbound: bool, ip: string, parsed: Parsed, keyedGroup: nat, connTime: int,
    lastPingSent: int, lastPingRecv: int, lastNovelBlock: int, lastNovelTx: int, onionInbound: bool)

  datatype Candidate = Candidate(
    id: nat, group: string, keyedGroup: nat, connTime: int, minPing: int, lastBlock: int, lastTx: int,
    onion: bool, local: bool)

  function Decimal(n: nat): (s: string)
    ensures s != ""
  {
    if n < 10 then [('0' as int + n) as char] else Decimal(n / 10) + [('0' as int + n % 10) as char]
  }

  const HEX_DIGITS: string := "0123456789abcdef"

  function Hex(bytes: seq<Byte>): (s: string)
    ensures |s| == 2 * |bytes|
  {
    if bytes == [] then ""
    else Hex(bytes[..|bytes| - 1]) + [HEX_DIGITS[bytes[|bytes| - 1] / 16], HEX_DIGITS[bytes[|bytes| - 1] % 16]]
  }

  predicate EndsWith(s: string, t: string) { |s| > |t| && s[|s| - |t|..] == t }

  /** The network group of an address; every kind has its own two-character tag. */
  function GroupOf(ip: string, parsed: Parsed): (g: string)
    ensures |g| >= 2 && g[1] == ':'
  {
    if EndsWith(ip, ".onion") then "o:" + ip[..1]
    else
      match parsed
      case V4(b) => "4:" + (Decimal(b[0]) + ("." + Decimal(b[1])))
      case V6(b) => "6:" + Hex(b[..8])
      case Other => "?:" + ip
  }

  /** Hidden services share a group by their first character, addresses by their first two bytes or first eight. */
  lemma SameGroup(ip: string, p: Parsed, ip': string, p': Parsed)
    ensures GroupOf(ip, p) == GroupOf(ip', p') <==>
      if EndsWith(ip, ".onion") || EndsWith(ip', ".onion")
      then EndsWith(ip, ".onion") && EndsWith(ip', ".onion") && ip[0] == ip'[0]
      else
        match (p, p')
        case (V4(b), V4(c)) => b[0] == c[0] && b[1] == c[1]
        case (V6(b), V6(c)) => b[..8] == c[..8]
        case (Other, Other) => ip == ip'
        case _ => false
  {
    hide Decimal, Hex, EndsWith;
    var g, g' := GroupOf(ip, p), GroupOf(ip', p');
    Tags(ip, p);
    Tags(ip', p');
    if g == g' { assert g[2..] == g'[2..]; }
    if !EndsWith(ip, ".onion") && !EndsWith(ip', ".onion") {
      if p.V4? && p'.V4? {
        DottedSame(p.four[0], p.four[1], p'.four[0], p'.four[1]);
      } else if p.V6? && p'.V6? {
        HexSame(p.sixteen[..8], p'.sixteen[..8]);
      }
    }
  }

  /** What stands in front of the group and behind the tag. */
  lemma Tags(ip: string, p: Parsed)
    ensures var g := GroupOf(ip, p);
            if EndsWith(ip, ".onion") then ip != "" && g[0] == 'o' && g[2..] == [ip[0]]
            else match p
                 case V4(b) => g[0] == '4' && g[2..] == Decimal(b[0]) + ("." + Decimal(b[1]))
                 case V6(b) => g[0] == '6' && g[2..] == Hex(b[..8])
                 case Other => g[0] == '?' && g[2..] == ip
  {
    hide Decimal, Hex;
  }

  predicate AllDigits(s: string) { forall i :: 0 <= i < |s| ==> '0' <= s[i] <= '9' }

  function Value(s: string): int
  {
    if s == "" then 0 else 10 * Value(s[..|s| - 1]) + (s[|s| - 1] as int - '0' as int)
  }

  lemma {:induction false} DecimalBack(n: nat)
    ensures AllDigits(Decimal(n)) && Value(Decimal(n)) == n
  {
    if n < 10 {
      assert Decimal(n)[..0] == "";
    } else {
      DecimalBack(n / 10);
      assert Decimal(n)[..|Decimal(n)| - 1] == Decimal(n / 10);
    }
  }

  lemma DottedSame(a: nat, b: nat, c: nat, d: nat)
    ensures Decimal(a) + ("." + Decimal(b)) == Decimal(c) + ("." + Decimal(d)) <==> a == c && b == d
  {
    hide Decimal, Value;
    DecimalBack(a);
    DecimalBack(b);
    DecimalBack(c);
    DecimalBack(d);
    var s, t := Decimal(a), Decimal(c);
    var x, y := s + ("." + Decimal(b)), t + ("." + Decimal(d));
    if x == y {
      assert x[|s|] == '.' && y[|t|] == '.';
      assert |s| == |t|;
      assert s == x[..|s|] == t;
      assert Decimal(b) == x[|s| + 1..] == Decimal(d);
    }
  }

  lemma HexDigitsDiffer(i: nat, j: nat)
    requires i < 16 && j < 16 && HEX_DIGITS[i] == HEX_DIGITS[j]
    ensures i == j
  {}

  lemma {:induction false} HexSame(s: seq<Byte>, t: seq<Byte>)
    requires |s| == |t|
    ensures Hex(s) == Hex(t) <==> s == t
  {
    if s != [] {
      var n := |s| - 1;
      HexSame(s[..n], t[..n]);
      assert s == s[..n] + [s[n]] && t == t[..n] + [t[n]];
      PairSame(Hex(s[..n]), s[n], Hex(t[..n]), t[n]);
    }
  }

  lemma PairSame(x: string, a: Byte, y: string, b: Byte)
    requires |x| == |y|
    ensures x + [HEX_DIGITS[a / 16], HEX_DIGITS[a % 16]] == y + [HEX_DIGITS[b / 16], HEX_DIGITS[b % 16]]
       <==> x == y && a == b
  {
    var s, t := x + [HEX_DIGITS[a / 16], HEX_DIGITS[a % 16]], y + [HEX_DIGITS[b / 16], HEX_DIGITS[b % 16]];
    if s == t {
      assert x == s[..|x|] == y;
      assert s[|x|] == t[|x|] && s[|x| + 1] == t[|x| + 1];
      HexDigitsDiffer(a / 16, b / 16);
      HexDigitsDiffer(a % 16, b % 16);
    }
  }

  predicate IsLoopback(ip: string) { "127." <= ip || ip == "::1" || "::ffff:127." <= ip }

  function CandidateOf(n: Node): (c: Candidate)
    ensures !(c.onion && c.local) && c.group != ""
  {
    Candidate(n.id, GroupOf(n.ip, n.parsed), n.keyedGroup, n.connTime,
              if n.lastPingRecv > 0 && n.lastPingSent > 0 && n.lastPingRecv >= n.lastPingSent
              then n.lastPingRecv - n.lastPingSent else NO_PING,
              n.lastNovelBlock, n.lastNovelTx, n.onionInbound, !n.onionInbound && IsLoopback(n.ip))
  }

  predicate Eligible(n: Node) { n.fullyConnected && n.inbound }

  /** The candidates among the nodes, in order. */
  function Candidates(nodes: seq<Node>): seq<Candidate>
  {
    if nodes == [] then []
    else
      var last := nodes[|nodes| - 1];
      Candidates(nodes[..|nodes| - 1]) + if Eligible(last) then [CandidateOf(last)] else []
  }

  // ---------- Setting aside the best ----------

  // What the peers are ranked by, the smallest first.
  function GroupKey(c: Candidate): int { c.keyedGroup }
  function PingKey(c: Candidate): int { c.minPing }
  function TxKey(c: Candidate): int { -c.lastTx }
  function BlockKey(c: Candidate): int { -c.lastBlock }
  function AgeKey(c: Candidate): int { c.connTime }

  /** cands was divided into gone and rest, nothing added or lost. */
  ghost predicate Divided(cands: seq<Candidate>, gone: seq<Candidate>, rest: seq<Candidate>)
  {
    multiset(cands) == multiset(gone) + multiset(rest)
  }

  ghost predicate NoneBetter(gone: seq<Candidate>, rest: seq<Candidate>, key: Candidate -> int)
  {
    forall g, r :: g in gone && r in rest ==> key(g) <= key(r)
  }

  function Without(s: seq<Candidate>, i: nat): (r: seq<Candidate>)
    requires i < |s|
    ensures |r| == |s| - 1
  {
    s[..i] + s[i + 1..]
  }

  lemma WithoutDivides(s: seq<Candidate>, i: nat)
    requires i < |s|
    ensures multiset(s) == multiset(Without(s, i)) + multiset{s[i]}
    ensures forall c :: c in Without(s, i) ==> c in s
  {
    assert s == s[..i] + [s[i]] + s[i + 1..];
  }

  lemma DividedMembers(cands: seq<Candidate>, gone: seq<Candidate>, rest: seq<Candidate>)
    requires Divided(cands, gone, rest)
    ensures forall c :: c in cands <==> c in gone || c in rest
    ensures |cands| == |gone| + |rest|
  {
    assert forall c :: c in cands <==> c in multiset(cands);
    assert forall c :: c in gone <==> c in multiset(gone);
    assert forall c :: c in rest <==> c in multiset(rest);
    assert |multiset(cands)| == |multiset(gone)| + |multiset(rest)|;
  }

  function Count(s: seq<Candidate>, q: Candidate -> bool): (n: nat)
    ensures n <= |s|
  {
    if s == [] then 0 else Count(s[..|s| - 1], q) + if q(s[|s| - 1]) then 1 else 0
  }

  lemma {:induction false} CountConcat(s: seq<Candidate>, t: seq<Candidate>, q: Candidate -> bool)
    ensures Count(s + t, q) == Count(s, q) + Count(t, q)
  {
    if t == [] {
      assert s + t == s;
    } else {
      var n := |t| - 1;
      CountConcat(s, t[..n], q);
      assert (s + t)[..|s + t| - 1] == s + t[..n];
    }
  }

  lemma CountOne(c: Candidate, q: Candidate -> bool)
    ensures Count([c], q) == if q(c) then 1 else 0
  {
    assert [c][..0] == [];
  }

  lemma CountWithout(s: seq<Candidate>, i: nat, q: Candidate -> bool)
    requires i < |s|
    ensures Count(Without(s, i), q) == Count(s, q) - if q(s[i]) then 1 else 0
  {
    hide Count;
    SplitAt(s, i);
    CountMiddle(s[..i], s[i], s[i + 1..], q);
  }

  lemma CountMiddle(a: seq<Candidate>, c: Candidate, b: seq<Candidate>, q: Candidate -> bool)
    ensures Count(a + b, q) == Count(a + ([c] + b), q) - if q(c) then 1 else 0
  {
    hide Count;
    CountConcat(a, b, q);
    CountConcat(a, [c] + b, q);
    CountConcat([c], b, q);
    CountOne(c, q);
  }

  /** How often a property occurs does not depend on the order. */
  lemma {:induction false} CountSame(s: seq<Candidate>, t: seq<Candidate>, q: Candidate -> bool)
    requires multiset(s) == multiset(t)
    ensures Count(s, q) == Count(t, q)
    decreases |s|
  {
    if s == [] {
      assert |multiset(t)| == 0;
    } else {
      hide Count;
      var i := Found(s, t);
      CountSame(Without(s, 0), Without(t, i), q);
      CountWithout(s, 0, q);
      CountWithout(t, i, q);
    }
  }

  lemma Found(s: seq<Candidate>, t: seq<Candidate>) returns (i: nat)
    requires s != [] && multiset(s) == multiset(t)
    ensures i < |t| && t[i] == s[0] && multiset(Without(s, 0)) == multiset(Without(t, i))
  {
    assert s[0] in multiset(t);
    i :| 0 <= i < |t| && t[i] == s[0];
    WithoutDivides(s, 0);
    WithoutDivides(t, i);
    assert multiset(Without(s, 0)) == multiset(s) - multiset{s[0]};
    assert multiset(Without(t, i)) == multiset(t) - multiset{t[i]};
  }

  /** Moving element i of rest over to gone. */
  lemma MoveOne(cands: seq<Candidate>, gone: seq<Candidate>, rest: seq<Candidate>, i: nat)
    requires Divided(cands, gone, rest) && i < |rest|
    ensures Divided(cands, gone + [rest[i]], Without(rest, i))
  {
    WithoutDivides(rest, i);
  }

  method ProtectBest(cands: seq<Candidate>, k: nat, key: Candidate -> int)
    returns (rest: seq<Candidate>, ghost gone: seq<Candidate>)
    ensures Divided(cands, gone, rest)
    ensures if |cands| <= k then rest == [] else |gone| == k && NoneBetter(gone, rest, key)
  {
    rest, gone := cands, [];
    if |cands| <= k { return [], cands; }
    for n := 0 to k
      invariant |gone| == n && |rest| == |cands| - n
      invariant Divided(cands, gone, rest) && NoneBetter(gone, rest, key)
    {
      var i := BestIndex(rest, key);
      MoveOne(cands, gone, rest, i);
      WithoutDivides(rest, i);
      gone := gone + [rest[i]];
      rest := Without(rest, i);
    }
  }

  method BestIndex(s: seq<Candidate>, key: Candidate -> int) returns (best: nat)
    requires s != []
    ensures best < |s| && forall j :: 0 <= j < |s| ==> key(s[best]) <= key(s[j])
  {
    best := 0;
    for i := 1 to |s|
      invariant best < |s| && forall j :: 0 <= j < i ==> key(s[best]) <= key(s[j])
    {
      if key(s[i]) < key(s[best]) { best := i; }
    }
  }

  // ---------- The share kept for onion and local peers ----------

  predicate InNet(c: Candidate, onion: bool) { if onion then c.onion else c.local }

  function Net(onion: bool): Candidate -> bool { (c: Candidate) => InNet(c, onion) }

  function Members(s: seq<Candidate>, onion: bool): (n: nat)
    ensures n <= |s|
  {
    Count(s, Net(onion))
  }

  ghost predicate Exclusive(s: seq<Candidate>)
  {
    forall c :: c in s ==> !(c.onion && c.local)
  }

  lemma MembersWithout(s: seq<Candidate>, i: nat, onion: bool)
    requires i < |s|
    ensures Members(Without(s, i), onion) == Members(s, onion) - if InNet(s[i], onion) then 1 else 0
  {
    hide Count;
    CountWithout(s, i, Net(onion));
  }

  lemma {:induction false} SomeMember(s: seq<Candidate>, onion: bool)
    ensures Members(s, onion) > 0 <==> exists i :: 0 <= i < |s| && InNet(s[i], onion)
  {
    if s != [] {
      SomeMember(s[..|s| - 1], onion);
      if InNet(s[|s| - 1], onion) { assert InNet(s[|s| - 1], onion); }
    }
  }

  /** Of each network, those set aside have been connected at least as long as those left. */
  ghost predicate OldestFirst(gone: seq<Candidate>, rest: seq<Candidate>, onion: bool)
  {
    forall g, r :: g in gone && r in rest && InNet(g, onion) && InNet(r, onion) ==> g.connTime <= r.connTime
  }

  method OldestIndex(s: seq<Candidate>, onion: bool) returns (best: nat)
    requires Members(s, onion) > 0
    ensures best < |s| && InNet(s[best], onion)
    ensures forall j :: 0 <= j < |s| && InNet(s[j], onion) ==> s[best].connTime <= s[j].connTime
  {
    SomeMember(s, onion);
    best := |s|;
    for i := 0 to |s|
      invariant best <= |s| && (best < |s| ==> InNet(s[best], onion))
      invariant forall j :: 0 <= j < i && InNet(s[j], onion) ==> best < |s| && s[best].connTime <= s[j].connTime
    {
      if InNet(s[i], onion) && (best == |s| || s[i].connTime < s[best].connTime) { best := i; }
    }
  }

  method TakeOldest(s: seq<Candidate>, onion: bool, k: nat) returns (rest: seq<Candidate>, ghost gone: seq<Candidate>)
    requires k <= Members(s, onion) && Exclusive(s)
    ensures Divided(s, gone, rest) && |gone| == k
    ensures Members(rest, onion) == Members(s, onion) - k && Members(rest, !onion) == Members(s, !onion)
    ensures (forall g :: g in gone ==> InNet(g, onion)) && OldestFirst(gone, rest, onion)
  {
    hide Members;
    rest, gone := s, [];
    for n := 0 to k
      invariant |gone| == n && Divided(s, gone, rest) && Exclusive(rest)
      invariant Members(rest, onion) == Members(s, onion) - n && Members(rest, !onion) == Members(s, !onion)
      invariant (forall g :: g in gone ==> InNet(g, onion)) && OldestFirst(gone, rest, onion)
    {
      var i := OldestIndex(rest, onion);
      MoveOne(s, gone, rest, i);
      WithoutDivides(rest, i);
      MembersWithout(rest, i, onion);
      MembersWithout(rest, i, !onion);
      gone := gone + [rest[i]];
      rest := Without(rest, i);
    }
  }

  function Min(a: nat, b: nat): nat { if a < b then a else b }

  /** A part taken from what was left joins what was gone. */
  lemma JoinGone(s: seq<Candidate>, gone: seq<Candidate>, rest: seq<Candidate>, more: seq<Candidate>,
                 left: seq<Candidate>)
    requires Divided(s, gone, rest) && Divided(rest, more, left) && Exclusive(s)
    requires OldestFirst(gone, rest, true) && OldestFirst(gone, rest, false)
    requires OldestFirst(more, left, true) && OldestFirst(more, left, false)
    ensures Divided(s, gone + more, left) && Exclusive(left)
    ensures OldestFirst(gone + more, left, true) && OldestFirst(gone + more, left, false)
  {
    DividedMembers(s, gone, rest);
    DividedMembers(rest, more, left);
  }

  /** The part of the loop for one network. */
  method TakeShare(s: seq<Candidate>, rest: seq<Candidate>, onion: bool, k: nat, ghost gone: seq<Candidate>,
                   ghost count: nat)
    returns (left: seq<Candidate>, ghost all: seq<Candidate>)
    requires k <= Members(rest, onion) && Exclusive(s) && Sharing(s, gone, rest, count)
    ensures Sharing(s, all, left, count + k)
    ensures Members(left, onion) == Members(rest, onion) - k && Members(left, !onion) == Members(rest, !onion)
  {
    hide Members, Divided;
    ghost var more;
    left, more := TakeOldest(rest, onion, k);
    DividedMembers(rest, more, left);
    JoinGone(s, gone, rest, more, left);
    all := gone + more;
  }

  /** How many of each network to set aside in one round. */
  function PerNet(left: nat, numNets: nat): (n: nat)
    requires left > 0 && 1 <= numNets <= 2
    ensures 1 <= n <= left && (numNets == 2 && left > 1 ==> 2 * n <= left)
  {
    var share := left / numNets;
    if share > 1 then share else 1
  }

  /** Where the network loop stands. */
  ghost predicate Sharing(cands: seq<Candidate>, gone: seq<Candidate>, rest: seq<Candidate>, count: nat)
  {
    && |gone| == count && Divided(cands, gone, rest) && Exclusive(rest)
    && OldestFirst(gone, rest, true) && OldestFirst(gone, rest, false)
    && Members(rest, true) + Members(rest, false) + count == Members(cands, true) + Members(cands, false)
  }

  method ProtectByNetwork(cands: seq<Candidate>) returns (rest: seq<Candidate>, count: nat, ghost gone: seq<Candidate>)
    requires Exclusive(cands)
    ensures count == Min(|cands| / 2 / 2, Members(cands, true) + Members(cands, false))
    ensures Divided(cands, gone, rest) && |gone| == count
    ensures OldestFirst(gone, rest, true) && OldestFirst(gone, rest, false)
    ensures NetworkShare(|cands|, gone, rest)
  {
    rest, count, gone := ShareOut(cands, |cands| / 2 / 2);
    AllOfNetwork(cands, gone, rest, count);
  }

  /** As many went as there are fewer members left, so all that went were members. */
  lemma AllOfNetwork(cands: seq<Candidate>, gone: seq<Candidate>, rest: seq<Candidate>, count: nat)
    requires Exclusive(cands) && Sharing(cands, gone, rest, count)
    requires count == Min(|cands| / 2 / 2, Members(cands, true) + Members(cands, false))
    ensures NetworkShare(|cands|, gone, rest)
  {
    hide Members, OldestFirst, InNet;
    DividedMembers(cands, gone, rest);
    MembersDivided(cands, gone, rest, true);
    MembersDivided(cands, gone, rest, false);
    MembersFull(gone);
    SomeMember(rest, true);
    SomeMember(rest, false);
    forall c | c in rest && OwnNet(c)
      ensures Members(rest, true) + Members(rest, false) > 0
    {
      var i :| 0 <= i < |rest| && rest[i] == c;
      assert InNet(rest[i], true) || InNet(rest[i], false);
    }
  }

  lemma MembersDivided(s: seq<Candidate>, gone: seq<Candidate>, rest: seq<Candidate>, onion: bool)
    requires Divided(s, gone, rest)
    ensures Members(s, onion) == Members(gone, onion) + Members(rest, onion)
  {
    hide Count;
    CountConcat(gone, rest, Net(onion));
    CountSame(s, gone + rest, Net(onion));
  }

  /** No list has more members than elements, and one with as many consists of them. */
  lemma {:induction false} MembersFull(s: seq<Candidate>)
    requires Exclusive(s)
    ensures Members(s, true) + Members(s, false) <= |s|
    ensures Members(s, true) + Members(s, false) == |s| ==> forall c :: c in s ==> OwnNet(c)
  {
    if s != [] {
      var n := |s| - 1;
      MembersFull(s[..n]);
      assert s == s[..n] + [s[n]];
    }
  }

  method ShareOut(cands: seq<Candidate>, quota: nat) returns (rest: seq<Candidate>, count: nat,
                  ghost gone: seq<Candidate>)
    requires Exclusive(cands)
    ensures count == Min(quota, Members(cands, true) + Members(cands, false))
    ensures Sharing(cands, gone, rest, count)
  {
    hide Members, PerNet, Sharing;
    rest, count, gone := cands, 0, [];
    NothingGone(cands);
    var first, c0, c1 := false, Members(cands, false), Members(cands, true);
    if c1 < c0 { first, c0, c1 := true, c1, c0; }
    while count < quota
      invariant count <= quota && Sharing(cands, gone, rest, count)
      invariant count < quota ==> c0 == Members(rest, first) && c1 == Members(rest, !first)
    {
      var numNets := (if c0 != 0 then 1 else 0) + (if c1 != 0 then 1 else 0);
      if numNets == 0 { break; }
      var perNet := PerNet(quota - count, numNets);
      if c0 != 0 {
        var k := Min(perNet, c0);
        rest, gone := TakeShare(cands, rest, first, k, gone, count);
        count := count + k;
        if count >= quota { break; }
        c0 := c0 - k;
      }
      if c1 != 0 {
        var k := Min(perNet, c1);
        rest, gone := TakeShare(cands, rest, !first, k, gone, count);
        count := count + k;
        if count >= quota { break; }
        c1 := c1 - k;
      }
    }
    SharedSoFar(cands, gone, rest, count);
  }

  lemma NothingGone(cands: seq<Candidate>)
    requires Exclusive(cands)
    ensures Sharing(cands, [], cands, 0)
  {}

  lemma SharedSoFar(cands: seq<Candidate>, gone: seq<Candidate>, rest: seq<Candidate>, count: nat)
    requires Sharing(cands, gone, rest, count)
    ensures Members(rest, true) + Members(rest, false) + count == Members(cands, true) + Members(cands, false)
  {}

  // ---------- The largest group ----------

  /** The positions below n that hold members of a group. */
  function Indices(s: seq<Candidate>, n: nat, group: string): (idx: seq<nat>)
    requires n <= |s|
    ensures forall j :: 0 <= j < |idx| ==> idx[j] < |s| && s[idx[j]].group == group
    ensures forall i :: 0 <= i < n && s[i].group == group ==> i in idx
  {
    if n == 0 then [] else Indices(s, n - 1, group) + if s[n - 1].group == group then [n - 1] else []
  }

  /** When the longest-standing member of a group connected. */
  function Oldest(s: seq<Candidate>, idx: seq<nat>): int
    requires forall j :: 0 <= j < |idx| ==> idx[j] < |s|
  {
    if idx == [] then NO_PING
    else
      var before, t := Oldest(s, idx[..|idx| - 1]), s[idx[|idx| - 1]].connTime;
      if t < before then t else before
  }

  /** Each group with members among the first n is mapped to their positions. */
  ghost predicate Grouped(s: seq<Candidate>, m: map<string, seq<nat>>, n: nat)
    requires n <= |s|
  {
    forall g :: Indices(s, n, g) == (if g in m then m[g] else []) && (g in m ==> m[g] != [])
  }

  lemma GroupedStart(s: seq<Candidate>)
    ensures Grouped(s, map[], 0)
  {}

  lemma IndicesStep(s: seq<Candidate>, n: nat, g: string)
    requires n < |s|
    ensures Indices(s, n + 1, g) == Indices(s, n, g) + if s[n].group == g then [n] else []
  {}

  lemma GroupedStep(s: seq<Candidate>, m: map<string, seq<nat>>, n: nat, idx: seq<nat>)
    requires n < |s| && Grouped(s, m, n)
    requires idx == (if s[n].group in m then m[s[n].group] else []) + [n]
    ensures Grouped(s, m[s[n].group := idx], n + 1)
  {
    var m' := m[s[n].group := idx];
    forall g: string
      ensures Indices(s, n + 1, g) == (if g in m' then m'[g] else []) && (g in m' ==> m'[g] != [])
    {
      assert Indices(s, n, g) == (if g in m then m[g] else []);
      IndicesStep(s, n, g);
      hide Indices;
    }
  }

  method ByGroup(s: seq<Candidate>) returns (m: map<string, seq<nat>>)
    ensures Grouped(s, m, |s|)
  {
    hide Grouped, Indices;
    m := map[];
    GroupedStart(s);
    for i := 0 to |s|
      invariant Grouped(s, m, i)
    {
      var g := s[i].group;
      var idx := (if g in m then m[g] else []) + [i];
      GroupedStep(s, m, i, idx);
      m := m[g := idx];
    }
  }

  lemma GroupedAll(s: seq<Candidate>, m: map<string, seq<nat>>)
    requires Grouped(s, m, |s|)
    ensures forall i :: 0 <= i < |s| ==> s[i].group in m
    ensures forall g :: g in m ==> m[g] == Indices(s, |s|, g) && m[g] != []
  {
    forall i | 0 <= i < |s|
      ensures s[i].group in m
    {
      assert i in Indices(s, |s|, s[i].group);
    }
  }

  method OldestOf(s: seq<Candidate>, idx: seq<nat>) returns (oldest: int)
    requires forall j :: 0 <= j < |idx| ==> idx[j] < |s|
    ensures oldest == Oldest(s, idx)
  {
    oldest := NO_PING;
    for j := 0 to |idx|
      invariant oldest == Oldest(s, idx[..j])
    {
      assert idx[..j + 1][..j] == idx[..j];
      var t := s[idx[j]].connTime;
      if t < oldest { oldest := t; }
    }
    assert idx[..|idx|] == idx;
  }

  // Group names in the order of the map that is walked.
  predicate Before(a: string, b: string)
  {
    b != "" && (a == "" || a[0] < b[0] || (a[0] == b[0] && Before(a[1..], b[1..])))
  }

  lemma {:induction false} BeforeTotal(a: string, b: string)
    ensures a == b || Before(a, b) || Before(b, a)
  {
    if a != "" && b != "" {
      BeforeTotal(a[1..], b[1..]);
      if a[0] == b[0] && a[1..] == b[1..] { assert a == [a[0]] + a[1..] == b; }
    }
  }

  lemma {:induction false} BeforeTransitive(a: string, b: string, c: string)
    requires Before(a, b) && Before(b, c)
    ensures Before(a, c)
  {
    if a != "" && a[0] == b[0] == c[0] { BeforeTransitive(a[1..], b[1..], c[1..]); }
  }

  lemma {:induction false} BeforeStrict(a: string)
    ensures !Before(a, a)
  {
    if a != "" { BeforeStrict(a[1..]); }
  }

  method FirstName(names: set<string>) returns (g: string)
    requires names != {}
    ensures g in names && forall n :: n in names ==> n == g || Before(g, n)
  {
    hide Before;
    g :| g in names;
    var rest := names - {g};
    while rest != {}
      invariant rest <= names && g in names - rest
      invariant forall n :: n in names && n !in rest ==> n == g || Before(g, n)
    {
      var c :| c in rest;
      rest := rest - {c};
      BeforeTotal(c, g);
      if Before(c, g) {
        forall n | n in names && n !in rest
          ensures n == c || Before(c, n)
        {
          if n != c && n != g { BeforeTransitive(c, g, n); }
        }
        g := c;
      }
    }
  }

  /** Group a comes after group b in the choice: fewer members, or as many and connected earlier, or later by name. */
  ghost predicate Yields(s: seq<Candidate>, a: string, b: string)
  {
    var x, y := Indices(s, |s|, a), Indices(s, |s|, b);
    || |x| < |y|
    || (|x| == |y| && Oldest(s, x) < Oldest(s, y))
    || (|x| == |y| && Oldest(s, x) == Oldest(s, y) && Before(b, a))
  }

  /** The group a victim is taken from. */
  ghost predicate IsWorst(s: seq<Candidate>, w: string)
  {
    Indices(s, |s|, w) != [] && forall i :: 0 <= i < |s| ==> s[i].group == w || Yields(s, s[i].group, w)
  }

  lemma WorstUnique(s: seq<Candidate>, v: string, w: string)
    requires IsWorst(s, v) && IsWorst(s, w)
    ensures v == w
  {
    hide Before, Oldest, Indices;
    SomeIn(s, v);
    SomeIn(s, w);
    if v != w {
      assert Yields(s, v, w) && Yields(s, w, v);
      if Before(v, w) && Before(w, v) {
        BeforeTransitive(v, w, v);
        BeforeStrict(v);
      }
    }
  }

  lemma YieldsChain(s: seq<Candidate>, a: string, b: string, c: string)
    requires Yields(s, a, b) && Yields(s, b, c)
    ensures Yields(s, a, c)
  {
    hide Before, Oldest, Indices;
    if Before(b, a) && Before(c, b) { BeforeTransitive(c, b, a); }
  }

  method WorstGroup(s: seq<Candidate>) returns (worst: string)
    requires s != []
    ensures IsWorst(s, worst)
  {
    hide Indices, Oldest, Grouped, Yields, Before;
    var m := ByGroup(s);
    GroupedAll(s, m);
    var keys := m.Keys;
    var worstCount, worstOldest := 0, 0;
    worst := "";
    while keys != {}
      invariant keys <= m.Keys
      invariant keys == m.Keys ==> worstCount == 0
      invariant keys != m.Keys ==>
        worst in m.Keys - keys && worstCount == |m[worst]| && worstOldest == Oldest(s, m[worst])
      invariant forall g :: g in m && g !in keys ==> g == worst || Yields(s, g, worst)
      invariant forall a, b :: a in m && a !in keys && b in keys ==> Before(a, b)
    {
      var g := FirstName(keys);
      var oldest := OldestOf(s, m[g]);
      if |m[g]| > worstCount || (|m[g]| == worstCount && oldest > worstOldest) {
        if keys != m.Keys {
          ByCount(s, worst, g);
          forall a | a in m && a !in keys
            ensures Yields(s, a, g)
          {
            if a != worst { YieldsChain(s, a, worst, g); }
          }
        }
        worstCount, worstOldest, worst := |m[g]|, oldest, g;
      } else {
        ByCount(s, g, worst);
      }
      keys := keys - {g};
    }
    assert s[0].group in m;
  }

  /** What the comparison in the walk decides between two groups in the order of their names. */
  lemma ByCount(s: seq<Candidate>, a: string, b: string)
    ensures var x, y := Indices(s, |s|, a), Indices(s, |s|, b);
            |x| < |y| || (|x| == |y| && Oldest(s, x) < Oldest(s, y)) ==> Yields(s, a, b)
    ensures var x, y := Indices(s, |s|, a), Indices(s, |s|, b);
            |x| == |y| && Oldest(s, x) <= Oldest(s, y) && Before(b, a) ==> Yields(s, a, b)
  {}

  /** Some member of the group connected at or after the epoch. */
  ghost predicate Recent(s: seq<Candidate>, group: string)
  {
    exists i :: 0 <= i < |s| && s[i].group == group && s[i].connTime >= 0
  }

  /** Position i holds the newest member of the group, the first of equals, connected at or after the epoch. */
  ghost predicate IsNewest(s: seq<Candidate>, group: string, i: nat)
  {
    && i < |s| && s[i].group == group && s[i].connTime >= 0
    && (forall k :: 0 <= k < |s| && s[k].group == group ==> s[k].connTime <= s[i].connTime)
    && (forall k :: 0 <= k < i && s[k].group == group ==> s[k].connTime < s[i].connTime)
  }

  method NewestOf(s: seq<Candidate>, group: string) returns (victim: Option<nat>)
    ensures victim.Some? <==> Recent(s, group)
    ensures victim.Some? ==> IsNewest(s, group, victim.value)
  {
    victim := None;
    var newest := -1;
    for i := 0 to |s|
      invariant victim.None? ==> newest == -1
      invariant victim.Some? ==>
        victim.value < i && s[victim.value].group == group && s[victim.value].connTime == newest > -1
      invariant forall k :: 0 <= k < i && s[k].group == group ==> s[k].connTime <= newest
      invariant victim.Some? ==> forall k :: 0 <= k < victim.value && s[k].group == group ==> s[k].connTime < newest
    {
      if s[i].group == group && s[i].connTime > newest {
        newest := s[i].connTime;
        victim := Some(i);
      }
    }
  }

  // ---------- The whole choice ----------

  /** The peers no victim is taken from, by what protects them, and the ones that are left. */
  datatype Ranking = Ranking(
    byGroup: seq<Candidate>, byPing: seq<Candidate>, byTx: seq<Candidate>, byBlocks: seq<Candidate>,
    byNetwork: seq<Candidate>, byAge: seq<Candidate>, rest: seq<Candidate>)

  predicate OwnNet(c: Candidate) { InNet(c, true) || InNet(c, false) }

  /** Up to a quarter of n is kept for its network, and the whole quarter if any such peer is left over. */
  ghost predicate NetworkShare(n: nat, gone: seq<Candidate>, rest: seq<Candidate>)
  {
    && |gone| <= n / 2 / 2 && (forall c :: c in gone ==> OwnNet(c))
    && ((exists c :: c in rest && OwnNet(c)) ==> |gone| == n / 2 / 2)
  }

  /** Everything but the rest is set aside, and every one of those beats every one of the rest in its own way. */
  ghost predicate Ranked(cands: seq<Candidate>, r: Ranking)
  {
    && multiset(cands) == multiset(r.byGroup) + multiset(r.byPing) + multiset(r.byTx) + multiset(r.byBlocks)
                        + multiset(r.byNetwork) + multiset(r.byAge) + multiset(r.rest)
    && |r.byGroup| == 4 && NoneBetter(r.byGroup, r.rest, GroupKey)
    && |r.byPing| == 8 && NoneBetter(r.byPing, r.rest, PingKey)
    && |r.byTx| == 4 && NoneBetter(r.byTx, r.rest, TxKey)
    && |r.byBlocks| == 4 && NoneBetter(r.byBlocks, r.rest, BlockKey)
    && |r.byNetwork| + |r.byAge| == (|cands| - 20) / 2
    && OldestFirst(r.byNetwork, r.rest, true) && OldestFirst(r.byNetwork, r.rest, false)
    && NetworkShare(|cands| - 20, r.byNetwork, r.rest)
    && NoneBetter(r.byAge, r.rest, AgeKey)
    && |r.rest| == (|cands| - 20 + 1) / 2
  }

  lemma NoneBetterPart(gone: seq<Candidate>, rest: seq<Candidate>, key: Candidate -> int, more: seq<Candidate>,
                       left: seq<Candidate>)
    requires NoneBetter(gone, rest, key) && Divided(rest, more, left)
    ensures NoneBetter(gone, left, key)
  {
    DividedMembers(rest, more, left);
  }

  lemma OldestFirstPart(gone: seq<Candidate>, rest: seq<Candidate>, onion: bool, more: seq<Candidate>,
                        left: seq<Candidate>)
    requires OldestFirst(gone, rest, onion) && Divided(rest, more, left)
    ensures OldestFirst(gone, left, onion)
  {
    DividedMembers(rest, more, left);
  }

  lemma DividedTwice(s: seq<Candidate>, a: seq<Candidate>, rest: seq<Candidate>, b: seq<Candidate>,
                     left: seq<Candidate>)
    requires Divided(s, a, rest) && Divided(rest, b, left)
    ensures Divided(s, a + b, left)
  {}

  /** The four fixed protections; what is left when there are more than twenty candidates. */
  method Shield(cands: seq<Candidate>)
    returns (rest: seq<Candidate>, ghost a: seq<Candidate>, ghost b: seq<Candidate>,
             ghost c: seq<Candidate>, ghost d: seq<Candidate>)
    ensures |cands| <= 20 ==> rest == []
    ensures |cands| > 20 ==> |a| == 4 && |b| == 8 && |c| == 4 && |d| == 4 && Divided(cands, a + b + c + d, rest)
    ensures |cands| > 20 ==> NoneBetter(a, rest, GroupKey) && NoneBetter(b, rest, PingKey)
    ensures |cands| > 20 ==> NoneBetter(c, rest, TxKey) && NoneBetter(d, rest, BlockKey)
  {
    hide Divided, NoneBetter;
    a, b, c, d := [], [], [], [];
    var rest1, rest2, rest3;
    rest1, a := ProtectBest(cands, PROTECT_BY_NETGROUP, GroupKey);
    DividedMembers(cands, a, rest1);
    if rest1 == [] { return [], a, b, c, d; }
    rest2, b := ProtectBest(rest1, PROTECT_BY_PING, PingKey);
    DividedMembers(rest1, b, rest2);
    if rest2 == [] { return [], a, b, c, d; }
    rest3, c := ProtectBest(rest2, PROTECT_BY_TX, TxKey);
    DividedMembers(rest2, c, rest3);
    if rest3 == [] { return [], a, b, c, d; }
    rest, d := ProtectBest(rest3, PROTECT_BY_BLOCKS, BlockKey);
    DividedMembers(rest3, d, rest);
    if rest == [] { return; }
    DividedTwice(cands, a, rest1, b, rest2);
    DividedTwice(cands, a + b, rest2, c, rest3);
    DividedTwice(cands, a + b + c, rest3, d, rest);
    NoneBetterPart(a, rest1, GroupKey, b, rest2);
    NoneBetterPart(a, rest2, GroupKey, c, rest3);
    NoneBetterPart(a, rest3, GroupKey, d, rest);
    NoneBetterPart(b, rest2, PingKey, c, rest3);
    NoneBetterPart(b, rest3, PingKey, d, rest);
    NoneBetterPart(c, rest3, TxKey, d, rest);
  }

  method Rank(cands: seq<Candidate>) returns (rest: seq<Candidate>, ghost r: Ranking)
    requires Exclusive(cands)
    ensures |cands| <= 20 ==> rest == []
    ensures |cands| > 20 ==> Ranked(cands, r) && rest == r.rest
  {
    hide Divided, NoneBetter, OldestFirst, Members;
    var left, a, b, c, d := Shield(cands);
    r := Ranking(a, b, c, d, [], [], []);
    ghost var shielded := a + b + c + d;
    if |cands| > 20 { DividedMembers(cands, shielded, left); }
    if left == [] { return [], r; }
    assert |cands| > 20 && |left| == |cands| - 20 && Exclusive(left);
    ghost var e, f;
    rest, e, f := ByLength(left);
    DividedMembers(left, e + f, rest);
    NoneBetterPart(a, left, GroupKey, e + f, rest);
    NoneBetterPart(b, left, PingKey, e + f, rest);
    NoneBetterPart(c, left, TxKey, e + f, rest);
    NoneBetterPart(d, left, BlockKey, e + f, rest);
    r := Ranking(a, b, c, d, e, f, rest);
    AllParts(cands, left, r);
  }

  lemma AllParts(cands: seq<Candidate>, left: seq<Candidate>, r: Ranking)
    requires Divided(cands, r.byGroup + r.byPing + r.byTx + r.byBlocks, left)
    requires Divided(left, r.byNetwork + r.byAge, r.rest)
    ensures multiset(cands) == multiset(r.byGroup) + multiset(r.byPing) + multiset(r.byTx) + multiset(r.byBlocks)
                             + multiset(r.byNetwork) + multiset(r.byAge) + multiset(r.rest)
  {}

  /** Half of those left are kept for having been connected longest, up to half of these for their network. */
  method ByLength(cands: seq<Candidate>)
    returns (rest: seq<Candidate>, ghost byNetwork: seq<Candidate>, ghost byAge: seq<Candidate>)
    requires Exclusive(cands) && cands != []
    ensures Divided(cands, byNetwork + byAge, rest)
    ensures |byNetwork| + |byAge| == |cands| / 2 && |rest| == (|cands| + 1) / 2
    ensures OldestFirst(byNetwork, rest, true) && OldestFirst(byNetwork, rest, false)
    ensures NoneBetter(byAge, rest, AgeKey) && NetworkShare(|cands|, byNetwork, rest)
  {
    hide Divided, NoneBetter, OldestFirst, Members, NetworkShare;
    var totalProtect := |cands| / 2;
    var left, count;
    left, count, byNetwork := ProtectByNetwork(cands);
    DividedMembers(cands, byNetwork, left);
    assert count <= totalProtect && |left| > totalProtect - count;
    rest, byAge := ProtectBest(left, totalProtect - count, AgeKey);
    DividedMembers(left, byAge, rest);
    NetworkSharePart(|cands|, byNetwork, left, rest);
    DividedTwice(cands, byNetwork, left, byAge, rest);
    OldestFirstPart(byNetwork, left, true, byAge, rest);
    OldestFirstPart(byNetwork, left, false, byAge, rest);
  }

  lemma NetworkSharePart(n: nat, gone: seq<Candidate>, rest: seq<Candidate>, left: seq<Candidate>)
    requires NetworkShare(n, gone, rest) && forall c :: c in left ==> c in rest
    ensures NetworkShare(n, gone, left)
  {}

  method Collect(nodes: seq<Node>) returns (cands: seq<Candidate>)
    ensures cands == Candidates(nodes) && Exclusive(cands)
  {
    cands := [];
    for i := 0 to |nodes|
      invariant cands == Candidates(nodes[..i]) && Exclusive(cands)
    {
      assert nodes[..i + 1][..i] == nodes[..i];
      if Eligible(nodes[i]) { cands := cands + [CandidateOf(nodes[i])]; }
    }
    assert nodes[..|nodes|] == nodes;
  }

  /**
   The peer to drop. Up to twenty candidates there is none. Above that r says who was protected, w is the one
   group the rest loses a member of, and the victim is its newest member, missing exactly when the whole group
   connected before the epoch. What this means for the nodes themselves is Spared, v being the victim's position.
   */
  method EvictOneInboundPeer(nodes: seq<Node>)
    returns (victim: Option<nat>, ghost r: Ranking, ghost w: string, ghost v: nat)
    ensures |set i | 0 <= i < |nodes| && nodes[i].fullyConnected && nodes[i].inbound| <= 20 ==> victim.None?
    ensures |Candidates(nodes)| == |set i | 0 <= i < |nodes| && nodes[i].fullyConnected && nodes[i].inbound|
    ensures |Candidates(nodes)| > 20 ==> Ranked(Candidates(nodes), r) && IsWorst(r.rest, w)
    ensures |Candidates(nodes)| > 20 ==> (victim.Some? <==> Recent(r.rest, w))
    ensures victim.Some? ==> exists i: nat :: IsNewest(r.rest, w, i) && victim.value == r.rest[i].id
    ensures |Candidates(nodes)| > 20 && Sane(nodes) ==> victim.Some?
    ensures victim.Some? ==> v < |nodes| && victim.value == nodes[v].id && w == GroupOf(nodes[v].ip, nodes[v].parsed)
    ensures victim.Some? ==> nodes[v].fullyConnected && nodes[v].inbound && nodes[v].connTime >= 0
    ensures victim.Some? ==> Spared(nodes, nodes[v])
  {
    hide Ranked, IsWorst, IsNewest, Spared, GroupOf;
    var cands := Collect(nodes);
    w, v := "", 0;
    var rest;
    rest, r := Rank(cands);
    CandidateCount(nodes);
    if rest == [] {
      NotEmpty(cands, r);
      return None, r, w, v;
    }
    RestIsCandidates(cands, r);
    FromNodes(nodes);
    var worst := WorstGroup(rest);
    w := worst;
    MemberOf(rest, worst);
    if worst == "" { return None, r, w, v; }
    var i := NewestOf(rest, worst);
    if i.None? { return None, r, w, v; }
    victim := Some(rest[i.value].id);
    NewestIn(rest, worst, i.value);
    v := CandidateIs(nodes, rest[i.value]);
    SparedBy(nodes, r, i.value, nodes[v]);
  }

  lemma NewestIn(s: seq<Candidate>, w: string, i: nat)
    requires IsNewest(s, w, i)
    ensures i < |s| && s[i] in s && s[i].group == w && s[i].connTime >= 0
  {}

  lemma MemberOf(s: seq<Candidate>, w: string)
    requires IsWorst(s, w)
    ensures exists i :: 0 <= i < |s| && s[i].group == w && s[i] in s
  {
    hide Indices, Yields;
    SomeIn(s, w);
  }

  lemma NotEmpty(cands: seq<Candidate>, r: Ranking)
    ensures |cands| > 20 && Ranked(cands, r) ==> r.rest != []
  {}

  lemma RestIsCandidates(cands: seq<Candidate>, r: Ranking)
    requires Ranked(cands, r)
    ensures forall c :: c in r.rest ==> c in cands
  {
    forall c | c in r.rest
      ensures c in cands
    {
      assert multiset(cands)[c] >= multiset(r.rest)[c] > 0;
    }
  }

  /** No connection was made before the epoch. */
  ghost predicate Sane(nodes: seq<Node>)
  {
    forall n :: n in nodes ==> n.connTime >= 0
  }

  lemma {:induction false} FromNodes(nodes: seq<Node>)
    ensures forall c :: c in Candidates(nodes) ==> c.group != ""
    ensures Sane(nodes) ==> forall c :: c in Candidates(nodes) ==> c.connTime >= 0
  {
    if nodes != [] { FromNodes(nodes[..|nodes| - 1]); }
  }

  lemma SomeIn(s: seq<Candidate>, group: string)
    requires Indices(s, |s|, group) != []
    ensures exists i :: 0 <= i < |s| && s[i].group == group && s[i] in s
  {
    var idx := Indices(s, |s|, group);
    assert s[idx[0]].group == group;
  }

  // ---------- The choice in terms of the nodes ----------

  /** The positions of the fully connected inbound nodes that have a property. */
  ghost function Chosen(nodes: seq<Node>, property: Node -> bool): set<nat>
  {
    set i | 0 <= i < |nodes| && nodes[i].fullyConnected && nodes[i].inbound && property(nodes[i])
  }

  ghost predicate AtLeast(nodes: seq<Node>, k: int, property: Node -> bool) { |Chosen(nodes, property)| >= k }

  predicate Measured(n: Node) { 0 < n.lastPingSent <= n.lastPingRecv }
  function Ping(n: Node): int { n.lastPingRecv - n.lastPingSent }

  function GroupNoHigher(n: Node): Node -> bool { (m: Node) => m.keyedGroup <= n.keyedGroup }
  function PingNoLonger(n: Node): Node -> bool
  {
    (m: Node) => Measured(m) && Ping(m) <= Ping(n)
  }
  function TxNoEarlier(n: Node): Node -> bool { (m: Node) => m.lastNovelTx >= n.lastNovelTx }
  function BlockNoEarlier(n: Node): Node -> bool { (m: Node) => m.lastNovelBlock >= n.lastNovelBlock }
  function ConnectedAsLong(n: Node): Node -> bool { (m: Node) => m.connTime <= n.connTime }
  predicate OwnNetwork(n: Node) { n.onionInbound || IsLoopback(n.ip) }

  /**
   Counting the victim itself, at least five of the nodes have no higher keyed group, nine a measured ping no
   longer, five a transaction no earlier and five a block no earlier, a quarter of the nodes beyond twenty have
   been connected as long, and if it came over an own network so did a quarter.
   */
  ghost predicate Spared(nodes: seq<Node>, n: Node)
  {
    var beyond := |set i | 0 <= i < |nodes| && nodes[i].fullyConnected && nodes[i].inbound| - 20;
    && AtLeast(nodes, 5, GroupNoHigher(n))
    && (Measured(n) && Ping(n) < NO_PING ==> AtLeast(nodes, 9, PingNoLonger(n)))
    && AtLeast(nodes, 5, TxNoEarlier(n))
    && AtLeast(nodes, 5, BlockNoEarlier(n))
    && AtLeast(nodes, beyond / 2 - beyond / 2 / 2 + 1, ConnectedAsLong(n))
    && (OwnNetwork(n) ==> AtLeast(nodes, beyond / 2 / 2 + 1, OwnNetwork))
  }

  predicate AnyNode(n: Node) { true }

  lemma ChosenStep(nodes: seq<Node>, property: Node -> bool)
    requires nodes != []
    ensures var n := |nodes| - 1;
            var more := if Eligible(nodes[n]) && property(nodes[n]) then 1 else 0;
            |Chosen(nodes, property)| == |Chosen(nodes[..n], property)| + more
  {
    var n := |nodes| - 1;
    var fewer, all := Chosen(nodes[..n], property), Chosen(nodes, property);
    forall i | 0 <= i < n
      ensures i in all <==> i in fewer
    {
      assert nodes[..n][i] == nodes[i];
    }
    OneMore(fewer, all, n, Eligible(nodes[n]) && property(nodes[n]));
  }

  lemma OneMore(s: set<nat>, t: set<nat>, n: nat, more: bool)
    requires n !in s && forall i: nat :: i in t <==> i in s || (i == n && more)
    ensures |t| == |s| + if more then 1 else 0
  {
    assert t == if more then s + {n} else s;
  }

  /** Counting candidates is counting nodes. */
  lemma {:induction false} CountNodes(nodes: seq<Node>, q: Candidate -> bool, property: Node -> bool)
    requires forall n :: n in nodes && q(CandidateOf(n)) ==> property(n)
    ensures Count(Candidates(nodes), q) <= |Chosen(nodes, property)|
  {
    hide CandidateOf, Chosen;
    if nodes != [] {
      var n := |nodes| - 1;
      var before := Candidates(nodes[..n]);
      CountNodes(nodes[..n], q, property);
      ChosenStep(nodes, property);
      if Eligible(nodes[n]) {
        assert (before + [CandidateOf(nodes[n])])[..|before|] == before;
        assert nodes[n] in nodes;
      } else {
        assert before + [] == before;
      }
    }
  }

  lemma {:induction false} CountEvery(s: seq<Candidate>, q: Candidate -> bool)
    requires forall c :: c in s ==> q(c)
    ensures Count(s, q) == |s|
  {
    if s != [] { CountEvery(s[..|s| - 1], q); }
  }

  lemma {:induction false} CountSome(s: seq<Candidate>, q: Candidate -> bool, i: nat)
    requires i < |s| && q(s[i])
    ensures Count(s, q) > 0
  {
    if i < |s| - 1 { CountSome(s[..|s| - 1], q, i); }
  }

  /** The candidates with a property are those among the seven parts. */
  lemma CountRanked(cands: seq<Candidate>, r: Ranking, q: Candidate -> bool)
    requires Ranked(cands, r)
    ensures Count(cands, q) == Count(r.byGroup, q) + Count(r.byPing, q) + Count(r.byTx, q) + Count(r.byBlocks, q)
                             + Count(r.byNetwork, q) + Count(r.byAge, q) + Count(r.rest, q)
  {
    hide Count, NoneBetter, OldestFirst, NetworkShare;
    var a := r.byGroup + r.byPing;
    var b := a + r.byTx;
    var c := b + r.byBlocks;
    var d := c + r.byNetwork;
    var e := d + r.byAge;
    CountConcat(r.byGroup, r.byPing, q);
    CountConcat(a, r.byTx, q);
    CountConcat(b, r.byBlocks, q);
    CountConcat(c, r.byNetwork, q);
    CountConcat(d, r.byAge, q);
    CountConcat(e, r.rest, q);
    CountSame(cands, e + r.rest, q);
  }

  /** A candidate is some fully connected inbound node, field by field. */
  lemma {:induction false} CandidateIs(nodes: seq<Node>, c: Candidate) returns (v: nat)
    requires c in Candidates(nodes)
    ensures v < |nodes| && nodes[v].fullyConnected && nodes[v].inbound
    ensures var n := nodes[v];
            && c.id == n.id && c.group == GroupOf(n.ip, n.parsed) && c.keyedGroup == n.keyedGroup
            && c.connTime == n.connTime && c.lastBlock == n.lastNovelBlock && c.lastTx == n.lastNovelTx
            && (Measured(n) ==> c.minPing == Ping(n))
            && (n.onionInbound <==> c.onion) && (IsLoopback(n.ip) && !n.onionInbound <==> c.local)
  {
    hide GroupOf, IsLoopback;
    var n := |nodes| - 1;
    if Eligible(nodes[n]) && c == CandidateOf(nodes[n]) {
      v := n;
    } else {
      v := CandidateIs(nodes[..n], c);
    }
  }

  lemma {:induction false} CandidateCount(nodes: seq<Node>)
    ensures |Candidates(nodes)| == |set i | 0 <= i < |nodes| && nodes[i].fullyConnected && nodes[i].inbound|
  {
    assert (set i | 0 <= i < |nodes| && nodes[i].fullyConnected && nodes[i].inbound) == Chosen(nodes, AnyNode);
    if nodes != [] {
      var before := nodes[..|nodes| - 1];
      CandidateCount(before);
      assert (set i | 0 <= i < |before| && before[i].fullyConnected && before[i].inbound) == Chosen(before, AnyNode);
      ChosenStep(nodes, AnyNode);
    }
  }

  /** One kind of protection: all of a part have the property, and so has the one at i of the rest. */
  lemma SparedFor(nodes: seq<Node>, r: Ranking, part: seq<Candidate>, i: nat,
                  q: Candidate -> bool, property: Node -> bool)
    requires Ranked(Candidates(nodes), r) && part in [r.byGroup, r.byPing, r.byTx, r.byBlocks, r.byNetwork, r.byAge]
    requires (forall c :: c in part ==> q(c)) && i < |r.rest| && q(r.rest[i])
    requires forall n :: n in nodes && q(CandidateOf(n)) ==> property(n)
    ensures AtLeast(nodes, |part| + 1, property)
  {
    hide CandidateOf, Candidates, Count, Ranked, Chosen;
    CountRanked(Candidates(nodes), r, q);
    CountEvery(part, q);
    CountSome(r.rest, q, i);
    CountNodes(nodes, q, property);
  }

  /** The candidate at i of the rest shows the fields of n. */
  ghost predicate Shows(c: Candidate, n: Node)
  {
    && c.keyedGroup == n.keyedGroup && c.connTime == n.connTime
    && c.lastBlock == n.lastNovelBlock && c.lastTx == n.lastNovelTx
    && (Measured(n) ==> c.minPing == Ping(n))
    && (OwnNetwork(n) ==> OwnNet(c))
  }

  lemma SparedBy(nodes: seq<Node>, r: Ranking, i: nat, n: Node)
    requires |Candidates(nodes)| > 20 && Ranked(Candidates(nodes), r) && i < |r.rest| && Shows(r.rest[i], n)
    ensures Spared(nodes, n)
  {
    hide Candidates, AtLeast, IsLoopback, GroupOf, NoneBetter, OldestFirst;
    CandidateCount(nodes);
    SparedByGroup(nodes, r, i, n);
    SparedByPing(nodes, r, i, n);
    SparedByTx(nodes, r, i, n);
    SparedByBlock(nodes, r, i, n);
    SparedByAge(nodes, r, i, n);
    SparedByNetwork(nodes, r, i, n);
    var beyond := |Candidates(nodes)| - 20;
    MoreIsEnough(nodes, |r.byAge| + 1, beyond / 2 - beyond / 2 / 2 + 1, ConnectedAsLong(n));
  }

  lemma MoreIsEnough(nodes: seq<Node>, k: int, j: int, property: Node -> bool)
    requires j <= k && AtLeast(nodes, k, property)
    ensures AtLeast(nodes, j, property)
  {}

  lemma SparedByGroup(nodes: seq<Node>, r: Ranking, i: nat, n: Node)
    requires Ranked(Candidates(nodes), r) && i < |r.rest| && Shows(r.rest[i], n)
    ensures AtLeast(nodes, 5, GroupNoHigher(n))
  {
    hide Candidates, GroupOf, IsLoopback;
    assert r.rest[i] in r.rest;
    SparedFor(nodes, r, r.byGroup, i, (c: Candidate) => c.keyedGroup <= n.keyedGroup, GroupNoHigher(n));
  }

  lemma SparedByPing(nodes: seq<Node>, r: Ranking, i: nat, n: Node)
    requires Ranked(Candidates(nodes), r) && i < |r.rest| && Shows(r.rest[i], n)
    ensures Measured(n) && Ping(n) < NO_PING ==> AtLeast(nodes, 9, PingNoLonger(n))
  {
    hide Candidates, GroupOf, IsLoopback;
    assert r.rest[i] in r.rest;
    if Measured(n) && Ping(n) < NO_PING {
      SparedFor(nodes, r, r.byPing, i, (c: Candidate) => c.minPing <= Ping(n), PingNoLonger(n));
    }
  }

  lemma SparedByTx(nodes: seq<Node>, r: Ranking, i: nat, n: Node)
    requires Ranked(Candidates(nodes), r) && i < |r.rest| && Shows(r.rest[i], n)
    ensures AtLeast(nodes, 5, TxNoEarlier(n))
  {
    hide Candidates, GroupOf, IsLoopback;
    assert r.rest[i] in r.rest;
    SparedFor(nodes, r, r.byTx, i, (c: Candidate) => c.lastTx >= n.lastNovelTx, TxNoEarlier(n));
  }

  lemma SparedByBlock(nodes: seq<Node>, r: Ranking, i: nat, n: Node)
    requires Ranked(Candidates(nodes), r) && i < |r.rest| && Shows(r.rest[i], n)
    ensures AtLeast(nodes, 5, BlockNoEarlier(n))
  {
    hide Candidates, GroupOf, IsLoopback;
    assert r.rest[i] in r.rest;
    SparedFor(nodes, r, r.byBlocks, i, (c: Candidate) => c.lastBlock >= n.lastNovelBlock, BlockNoEarlier(n));
  }

  lemma SparedByAge(nodes: seq<Node>, r: Ranking, i: nat, n: Node)
    requires Ranked(Candidates(nodes), r) && i < |r.rest| && Shows(r.rest[i], n)
    ensures AtLeast(nodes, |r.byAge| + 1, ConnectedAsLong(n))
  {
    hide Candidates, GroupOf, IsLoopback;
    assert r.rest[i] in r.rest;
    SparedFor(nodes, r, r.byAge, i, (c: Candidate) => c.connTime <= n.connTime, ConnectedAsLong(n));
  }

  lemma SparedByNetwork(nodes: seq<Node>, r: Ranking, i: nat, n: Node)
    requires Ranked(Candidates(nodes), r) && i < |r.rest| && Shows(r.rest[i], n)
    ensures OwnNetwork(n) ==> AtLeast(nodes, (|Candidates(nodes)| - 20) / 2 / 2 + 1, OwnNetwork)
  {
    hide Candidates, GroupOf, IsLoopback;
    assert r.rest[i] in r.rest;
    if OwnNetwork(n) {
      SparedFor(nodes, r, r.byNetwork, i, OwnNet, OwnNetwork);
    }
  }

}
