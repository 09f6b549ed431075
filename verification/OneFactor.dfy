/**
 The 1-factor ping-pong and bandwidth protocols (benchmarks/net/net_benchmark.cpp:94-208,273-390).

 In every round each host talks to one peer, first as sender and receiver, then the other way round; no
 barrier separates the rounds.  A leg is a list of messages: `Forth` ones carry the counter and advance it
 on both sides, `Back` ones carry it and leave it.  Any host that can take its next step may take it.
 Connections are FIFO channels that hold up to `capacity` messages.
 */
module OneFactor {
  import opened Arithmetic

  datatype Direction = Forth | Back

  /** One message of a round: whether the lower-ranked host sends it, and whether it advances the counter. */
  datatype Action = Action(fromLow: bool, counts: bool)

  datatype Host = Host(round: nat, place: nat, counter: nat)

  /** `peers[r][h]` is the peer of host `h` in round `r`; `idle` is what a host without peer adds to its counter. */
  datatype Config = Config(peers: seq<seq<nat>>, script: seq<Action>, idle: nat, capacity: nat)

  /** `failed` when a host found a value different from its counter. */
  datatype State = State(hosts: seq<Host>, channels: seq<seq<seq<nat>>>, failed: bool)

  // ---------------------------------------------------------------- scripts

  function Toward(leg: seq<Direction>, low: bool): (r: seq<Action>)
    ensures |r| == |leg|
  {
    seq(|leg|, i requires 0 <= i < |leg| => Action(low == leg[i].Forth?, leg[i].Forth?))
  }

  /** Both legs of a round: the lower-ranked host is sender first. */
  function Script(leg: seq<Direction>): seq<Action> { Toward(leg, true) + Toward(leg, false) }

  function Repeat<T>(s: seq<T>, k: nat): seq<T> { if k == 0 then [] else Repeat(s, k - 1) + s }

  function PingPong(peers: seq<seq<nat>>, innerRepeats: nat, capacity: nat): Config {
    Config(peers, Script(Repeat([Forth, Back], innerRepeats + 1)), 2 * (innerRepeats + 1), capacity)
  }

  function Bandwidth(peers: seq<seq<nat>>, blockCount: nat, capacity: nat): Config {
    Config(peers, Script(Repeat([Forth], blockCount) + [Back]), 2 * blockCount, capacity)
  }

  /** How often the first `k` actions advance the counter. */
  function Count(s: seq<Action>, k: nat): nat
    requires k <= |s|
  {
    if k == 0 then 0 else Count(s, k - 1) + (if s[k - 1].counts then 1 else 0)
  }

  /** The peers of every round are a symmetric matching, and idle hosts keep pace. */
  ghost predicate ValidConfig(c: Config) {
    && |c.script| > 0 && c.idle == Count(c.script, |c.script|) && c.capacity > 0
    && forall r: nat, h: nat | r < |c.peers| && h < |c.peers[r]| :: Matched(c, r, h)
  }

  ghost predicate Matched(c: Config, r: nat, h: nat)
    requires r < |c.peers| && h < |c.peers[r]|
  {
    c.peers[r][h] < |c.peers[r]| && c.peers[r][c.peers[r][h]] == h
  }

  lemma {:induction false} CountAppend(a: seq<Action>, b: seq<Action>, k: nat)
    requires k <= |b|
    ensures Count(a + b, |a| + k) == Count(a, |a|) + Count(b, k)
    decreases |a| + k
  {
    if k > 0 {
      CountAppend(a, b, k - 1);
    } else if |a| > 0 {
      CountPrefix(a, b, |a|);
    }
  }

  lemma {:induction false} CountPrefix(a: seq<Action>, b: seq<Action>, k: nat)
    requires k <= |a|
    ensures Count(a + b, k) == Count(a, k)
  {
    if k > 0 { CountPrefix(a, b, k - 1); }
  }

  function Forths(leg: seq<Direction>): nat {
    if leg == [] then 0 else Forths(leg[..|leg| - 1]) + (if leg[|leg| - 1].Forth? then 1 else 0)
  }

  lemma {:induction false} CountIsForths(leg: seq<Direction>, low: bool)
    ensures Count(Toward(leg, low), |leg|) == Forths(leg)
  {
    if leg != [] {
      var front := leg[..|leg| - 1];
      CountIsForths(front, low);
      assert Toward(leg, low) == Toward(front, low) + [Action(low == leg[|leg| - 1].Forth?, leg[|leg| - 1].Forth?)];
      CountPrefix(Toward(front, low), [Action(low == leg[|leg| - 1].Forth?, leg[|leg| - 1].Forth?)], |front|);
    }
  }

  lemma {:induction false} ForthsAppend(a: seq<Direction>, b: seq<Direction>)
    ensures Forths(a + b) == Forths(a) + Forths(b)
    decreases |b|
  {
    if b == [] {
      assert a + b == a;
    } else {
      assert (a + b)[..|a + b| - 1] == a + b[..|b| - 1];
      ForthsAppend(a, b[..|b| - 1]);
    }
  }

  lemma {:induction false} ForthsRepeat(s: seq<Direction>, k: nat)
    requires Forths(s) == 1
    ensures Forths(Repeat(s, k)) == k
  {
    if k > 0 {
      ForthsRepeat(s, k - 1);
      ForthsAppend(Repeat(s, k - 1), s);
    }
  }

  lemma ScriptCount(leg: seq<Direction>)
    ensures Count(Script(leg), |Script(leg)|) == 2 * Forths(leg)
  {
    CountAppend(Toward(leg, true), Toward(leg, false), |leg|);
    CountIsForths(leg, true);
    CountIsForths(leg, false);
  }

  ghost predicate Matching(peers: seq<seq<nat>>) {
    forall r: nat, h: nat | r < |peers| && h < |peers[r]| :: Matched(Config(peers, [], 0, 0), r, h)
  }

  /** Both protocols keep idle hosts in pace with the others. */
  lemma ProtocolsAreValid(peers: seq<seq<nat>>, repeats: nat, capacity: nat)
    requires Matching(peers) && capacity > 0
    ensures ValidConfig(PingPong(peers, repeats, capacity)) && ValidConfig(Bandwidth(peers, repeats, capacity))
  {
    var a, b := Repeat([Forth, Back], repeats + 1), Repeat([Forth], repeats) + [Back];
    assert [Forth, Back][..1] == [Forth] && [Forth][..0] == [] && [Back][..0] == [];
    assert Forths([]) == 0 && Forths([Forth]) == 1 && Forths([Back]) == 0 && Forths([Forth, Back]) == 1;
    ForthsRepeat([Forth, Back], repeats + 1);
    ForthsRepeat([Forth], repeats);
    ForthsAppend(Repeat([Forth], repeats), [Back]);
    ScriptCount(a);
    ScriptCount(b);
    forall r: nat, h: nat | r < |peers| && h < |peers[r]|
      ensures Matched(PingPong(peers, repeats, capacity), r, h) && Matched(Bandwidth(peers, repeats, capacity), r, h) {
      assert Matched(Config(peers, [], 0, 0), r, h);
    }
  }

  lemma {:induction false} RepeatAt<T>(s: seq<T>, k: nat, i: nat)
    requires s != [] && i < |s| * k
    ensures |Repeat(s, k)| == |s| * k && Repeat(s, k)[i] == s[i % |s|]
    decreases k
  {
    RepeatSize(s, k);
    RepeatSize(s, k - 1);
    assert |s| * k == |s| * (k - 1) + |s|;
    if i < |s| * (k - 1) {
      RepeatAt(s, k - 1, i);
    } else {
      DivisionUnique(i, k - 1, i - |s| * (k - 1), |s|);
    }
  }

  lemma {:induction false} RepeatSize<T>(s: seq<T>, k: nat)
    ensures |Repeat(s, k)| == |s| * k
  {
    if k > 0 {
      RepeatSize(s, k - 1);
      assert |s| * k == |s| * (k - 1) + |s|;
    }
  }

  /** A round of ping-pong: innerRepeats + 1 times, the lower-ranked host sends its counter, both advance, and the
      higher-ranked one answers; then the same with the hosts exchanged. */
  lemma PingPongScript(peers: seq<seq<nat>>, innerRepeats: nat, capacity: nat, k: nat)
    ensures var c := PingPong(peers, innerRepeats, capacity);
            && c.peers == peers && c.capacity == capacity && c.idle == 2 * (innerRepeats + 1)
            && |c.script| == 4 * (innerRepeats + 1)
            && (k < 2 * (innerRepeats + 1) ==>
                  && c.script[k] == (if k % 2 == 0 then Action(true, true) else Action(false, false))
                  && c.script[2 * (innerRepeats + 1) + k]
                       == (if k % 2 == 0 then Action(false, true) else Action(true, false)))
  {
    RepeatSize([Forth, Back], innerRepeats + 1);
    if k < 2 * (innerRepeats + 1) { RepeatAt([Forth, Back], innerRepeats + 1, k); }
  }

  /** A round of the bandwidth test: the lower-ranked host sends blockCount blocks with its counter, both advance with
      every block, and the higher-ranked one answers once; then the same with the hosts exchanged. */
  lemma BandwidthScript(peers: seq<seq<nat>>, blockCount: nat, capacity: nat, k: nat)
    ensures var c := Bandwidth(peers, blockCount, capacity);
            && c.peers == peers && c.capacity == capacity && c.idle == 2 * blockCount
            && |c.script| == 2 * (blockCount + 1)
            && (k < blockCount ==> c.script[k] == Action(true, true))
            && c.script[blockCount] == Action(false, false)
            && (k < blockCount ==> c.script[blockCount + 1 + k] == Action(false, true))
            && c.script[2 * blockCount + 1] == Action(true, false)
  {
    RepeatSize([Forth], blockCount);
    if k < blockCount { RepeatAt([Forth], blockCount, k); }
  }

  // ---------------------------------------------------------------- steps

  ghost predicate Sized(c: Config, s: State) {
    && |s.channels| == |s.hosts| && (forall h: nat | h < |s.hosts| :: |s.channels[h]| == |s.hosts|)
    && forall r: nat | r < |c.peers| :: |c.peers[r]| == |s.hosts|
  }

  ghost predicate Done(c: Config, s: State, h: nat)
    requires h < |s.hosts|
  {
    s.hosts[h].round >= |c.peers|
  }

  /** Host `h` is about to take part in an action of its round, as its sender or its receiver. */
  ghost predicate Sends(c: Config, s: State, h: nat)
    requires ValidConfig(c) && Sized(c, s) && h < |s.hosts| && !Done(c, s, h) && s.hosts[h].place < |c.script|
  {
    c.script[s.hosts[h].place].fromLow == (h < c.peers[s.hosts[h].round][h])
  }

  ghost function Peer(c: Config, s: State, h: nat): (q: nat)
    requires ValidConfig(c) && Sized(c, s) && h < |s.hosts| && !Done(c, s, h)
    ensures q < |s.hosts|
  {
    assert Matched(c, s.hosts[h].round, h);
    c.peers[s.hosts[h].round][h]
  }

  /** Host `h` can take a step: it has no peer, or room to send, or a message to receive. */
  ghost predicate CanStep(c: Config, s: State, h: nat) {
    && ValidConfig(c) && Sized(c, s) && !s.failed && h < |s.hosts| && !Done(c, s, h) && s.hosts[h].place < |c.script|
    && var q := Peer(c, s, h);
       q == h || (if Sends(c, s, h) then |s.channels[h][q]| < c.capacity else s.channels[q][h] != [])
  }

  ghost function Advanced(c: Config, x: Host): Host
    requires x.place < |c.script|
  {
    var counter := x.counter + (if c.script[x.place].counts then 1 else 0);
    if x.place + 1 < |c.script| then Host(x.round, x.place + 1, counter) else Host(x.round + 1, 0, counter)
  }

  ghost function SetChannel(s: seq<seq<seq<nat>>>, h: nat, q: nat, messages: seq<nat>): (r: seq<seq<seq<nat>>>)
    requires h < |s| && q < |s[h]|
  {
    s[h := s[h][q := messages]]
  }

  /** The state after a step of host `h`. */
  ghost function Step(c: Config, s: State, h: nat): State
    requires CanStep(c, s, h)
  {
    var q, x := Peer(c, s, h), s.hosts[h];
    if q == h then
      s.(hosts := s.hosts[h := Host(x.round + 1, 0, x.counter + c.idle)])
    else if Sends(c, s, h) then
      State(s.hosts[h := Advanced(c, x)], SetChannel(s.channels, h, q, s.channels[h][q] + [x.counter]), false)
    else
      State(s.hosts[h := Advanced(c, x)], SetChannel(s.channels, q, h, s.channels[q][h][1..]),
            s.channels[q][h][0] != x.counter)
  }

  /** A sender leaves its counter behind all other messages; a receiver takes the first message, and fails on any value
      but its counter. */
  lemma StepMessages(c: Config, s: State, h: nat, q: nat)
    requires CanStep(c, s, h) && q == Peer(c, s, h) && q != h
    ensures var r := Step(c, s, h);
            if Sends(c, s, h) then
              r.channels[h][q] == s.channels[h][q] + [s.hosts[h].counter] && !r.failed
            else
              && s.channels[q][h] == s.channels[q][h][..1] + r.channels[q][h]
              && (r.failed <==> s.channels[q][h][..1] != [s.hosts[h].counter])
  {
  }

  ghost predicate Initial(c: Config, s: State) {
    && Sized(c, s) && !s.failed
    && (forall h: nat | h < |s.hosts| :: s.hosts[h] == Host(0, 0, 0))
    && forall h: nat, q: nat | h < |s.hosts| && q < |s.hosts| :: s.channels[h][q] == []
  }

  // ---------------------------------------------------------------- what has been sent

  /** The counter of every host at a place of a round. */
  ghost function Expected(c: Config, r: nat, k: nat): nat
    requires k <= |c.script|
  {
    r * c.idle + Count(c.script, k)
  }

  ghost predicate Meet(c: Config, h: nat, q: nat, r: nat) {
    h != q && r < |c.peers| && h < |c.peers[r]| && c.peers[r][h] == q
  }

  /** What the lower- or higher-ranked host sends in the first `k` actions of round `r`. */
  ghost function SentInRound(c: Config, low: bool, r: nat, k: nat): seq<nat>
    requires k <= |c.script|
  {
    if k == 0 then [] else
      SentInRound(c, low, r, k - 1) + (if c.script[k - 1].fromLow == low then [Expected(c, r, k - 1)] else [])
  }

  /** All that host `h` has sent to `q` up to place `k` of round `r`. */
  ghost function Sent(c: Config, h: nat, q: nat, r: nat, k: nat): seq<nat>
    requires k <= |c.script|
    decreases r
  {
    (if r == 0 then [] else Sent(c, h, q, r - 1, |c.script|))
    + (if Meet(c, h, q, r) then SentInRound(c, h < q, r, k) else [])
  }

  ghost predicate IsPrefix(a: seq<nat>, b: seq<nat>) { |a| <= |b| && b[..|a|] == a }

  lemma {:induction false} RoundPrefix(c: Config, low: bool, r: nat, j: nat, k: nat)
    requires j <= k <= |c.script|
    ensures IsPrefix(SentInRound(c, low, r, j), SentInRound(c, low, r, k))
    decreases k
  {
    if j < k { RoundPrefix(c, low, r, j, k - 1); }
  }

  ghost predicate NotAfter(r: nat, j: nat, r': nat, k: nat) { r < r' || (r == r' && j <= k) }

  /** What has been sent only grows. */
  lemma {:induction false} SentGrows(c: Config, h: nat, q: nat, r: nat, j: nat, r': nat, k: nat)
    requires j <= |c.script| && k <= |c.script| && NotAfter(r, j, r', k)
    ensures IsPrefix(Sent(c, h, q, r, j), Sent(c, h, q, r', k))
    decreases r'
  {
    if r == r' {
      RoundPrefix(c, h < q, r, j, k);
    } else {
      SentGrows(c, h, q, r, j, r' - 1, |c.script|);
      var a := Sent(c, h, q, r' - 1, |c.script|);
      assert IsPrefix(a, Sent(c, h, q, r', k));
    }
  }

  /** One more action sends one more message, or none. */
  lemma SentNext(c: Config, h: nat, q: nat, r: nat, k: nat, k': nat)
    requires k' == k + 1 <= |c.script|
    ensures Sent(c, h, q, r, k') == Sent(c, h, q, r, k)
              + (if Meet(c, h, q, r) && c.script[k].fromLow == (h < q) then [Expected(c, r, k)] else [])
  {
  }

  lemma SentNextRound(c: Config, h: nat, q: nat, r: nat, r': nat)
    requires r' == r + 1
    ensures Sent(c, h, q, r', 0) == Sent(c, h, q, r, |c.script|)
  {
  }

  lemma SentApart(c: Config, h: nat, q: nat, r: nat, j: nat, k: nat)
    requires j <= |c.script| && k <= |c.script| && !Meet(c, h, q, r)
    ensures Sent(c, h, q, r, j) == Sent(c, h, q, r, k)
  {
  }

  // ---------------------------------------------------------------- the invariant

  ghost predicate HostRight(c: Config, s: State, h: nat)
    requires h < |s.hosts|
  {
    var x := s.hosts[h];
    x.round <= |c.peers| && x.place < |c.script| && (x.round == |c.peers| ==> x.place == 0)
    && (x.round < |c.peers| && h < |c.peers[x.round]| && c.peers[x.round][h] == h ==> x.place == 0)
    && x.counter == Expected(c, x.round, x.place)
  }

  /** The channel holds what the sender has sent and the receiver has not yet got to. */
  ghost predicate ChannelRight(c: Config, s: State, h: nat, q: nat)
    requires Sized(c, s) && h < |s.hosts| && q < |s.hosts|
    requires s.hosts[h].place <= |c.script| && s.hosts[q].place <= |c.script|
  {
    Sent(c, h, q, s.hosts[h].round, s.hosts[h].place)
    == Sent(c, h, q, s.hosts[q].round, s.hosts[q].place) + s.channels[h][q]
  }

  ghost predicate Good(c: Config, s: State) {
    && ValidConfig(c) && Sized(c, s) && !s.failed
    && (forall h: nat | h < |s.hosts| :: HostRight(c, s, h))
    && forall h: nat, q: nat | h < |s.hosts| && q < |s.hosts| && HostRight(c, s, h) && HostRight(c, s, q) ::
         ChannelRight(c, s, h, q)
  }

  lemma InitialIsGood(c: Config, s: State)
    requires ValidConfig(c) && Initial(c, s)
    ensures Good(c, s)
  {
  }

  // ---------------------------------------------------------------- every step keeps it

  ghost function AdvancedFrom(c: Config, x: Host, skip: bool): Host
    requires x.place < |c.script|
  {
    if skip then Host(x.round + 1, 0, x.counter + c.idle) else Advanced(c, x)
  }

  lemma AdvancedRight(c: Config, x: Host)
    requires ValidConfig(c) && x.round < |c.peers| && x.place < |c.script| && x.counter == Expected(c, x.round, x.place)
    ensures var y := Advanced(c, x);
            y.round <= |c.peers| && y.place < |c.script| && (y.round == |c.peers| ==> y.place == 0)
            && y.counter == Expected(c, y.round, y.place)
  {
    var r := x.round;
    assert (r + 1) * c.idle == r * c.idle + c.idle;
  }

  /** What one host has sent another, once one of the two has advanced past an action. */
  lemma AdvancedSent(c: Config, x: Host, h: nat, q: nat)
    requires ValidConfig(c) && x.place < |c.script|
    ensures Advanced(c, x).place < |c.script|
    ensures Sent(c, h, q, Advanced(c, x).round, Advanced(c, x).place) == Sent(c, h, q, x.round, x.place)
              + (if Meet(c, h, q, x.round) && c.script[x.place].fromLow == (h < q)
                 then [Expected(c, x.round, x.place)] else [])
  {
    SentNext(c, h, q, x.round, x.place, x.place + 1);
    if x.place + 1 == |c.script| { SentNextRound(c, h, q, x.round, x.round + 1); }
  }

  /** A host without peer sends nothing in the round, and nothing is sent to it. */
  lemma IdleSent(c: Config, x: Host, h: nat, q: nat)
    requires ValidConfig(c) && x.place < |c.script| && !Meet(c, h, q, x.round)
    ensures Sent(c, h, q, x.round + 1, 0) == Sent(c, h, q, x.round, x.place)
  {
    SentNextRound(c, h, q, x.round, x.round + 1);
    SentApart(c, h, q, x.round, x.place, |c.script|);
  }

  /** Two hosts meet in a round exactly when either is the other's peer. */
  lemma MeetIsMutual(c: Config, s: State, h: nat, q: nat, r: nat)
    requires ValidConfig(c) && Sized(c, s) && h < |s.hosts| && q < |s.hosts| && r < |c.peers|
    ensures Meet(c, h, q, r) <==> Meet(c, q, h, r)
    ensures Meet(c, h, q, r) <==> h != q && c.peers[r][h] == q
  {
    assert Matched(c, r, h) && Matched(c, r, q);
  }

  /** A waiting message carries the counter its receiver has. */
  lemma NextMessage(c: Config, s: State, q: nat, h: nat)
    requires Good(c, s) && h < |s.hosts| && q < |s.hosts| && !Done(c, s, h) && s.hosts[h].place < |c.script|
    requires Meet(c, q, h, s.hosts[h].round) && c.script[s.hosts[h].place].fromLow == (q < h) && s.channels[q][h] != []
    ensures s.channels[q][h][0] == s.hosts[h].counter
  {
    assert HostRight(c, s, h) && HostRight(c, s, q) && ChannelRight(c, s, q, h);
    var x, y := s.hosts[h], s.hosts[q];
    FirstUnread(c, q, h, x.round, x.place, y.round, y.place, s.channels[q][h]);
  }

  /** What has been sent to a place but not received at an earlier one starts with the value due there. */
  lemma FirstUnread(c: Config, q: nat, h: nat, r: nat, k: nat, r': nat, k': nat, m: seq<nat>)
    requires k < |c.script| && k' <= |c.script| && Meet(c, q, h, r) && c.script[k].fromLow == (q < h)
    requires Sent(c, q, h, r', k') == Sent(c, q, h, r, k) + m && m != []
    ensures m[0] == Expected(c, r, k)
  {
    if NotAfter(r', k', r, k) {
      SentGrows(c, q, h, r', k', r, k);
    } else {
      FirstAfter(c, q, h, r, k, k + 1, r', k', m);
    }
  }

  lemma FirstAfter(c: Config, q: nat, h: nat, r: nat, k: nat, next: nat, r': nat, k': nat, m: seq<nat>)
    requires next == k + 1 <= |c.script| && k' <= |c.script| && NotAfter(r, next, r', k')
    requires Meet(c, q, h, r) && c.script[k].fromLow == (q < h)
    requires Sent(c, q, h, r', k') == Sent(c, q, h, r, k) + m && m != []
    ensures m[0] == Expected(c, r, k)
  {
    SentNext(c, q, h, r, k, next);
    SentGrows(c, q, h, r, next, r', k');
    NextOfPrefix(Sent(c, q, h, r, k), Expected(c, r, k), Sent(c, q, h, r', k'), m);
  }

  lemma NextOfPrefix(a: seq<nat>, x: nat, b: seq<nat>, m: seq<nat>)
    requires IsPrefix(a + [x], b) && b == a + m && m != []
    ensures m[0] == x
  {
    assert b[|a|] == b[..|a| + 1][|a|];
  }

  ghost predicate ChannelOK(c: Config, s: State, h: nat, q: nat) {
    && Sized(c, s) && h < |s.hosts| && q < |s.hosts| && s.hosts[h].place <= |c.script| && s.hosts[q].place <= |c.script|
    && ChannelRight(c, s, h, q)
  }

  lemma StepShape(c: Config, s: State, h: nat)
    requires Good(c, s) && CanStep(c, s, h)
    ensures Sized(c, Step(c, s, h)) && |Step(c, s, h).hosts| == |s.hosts|
    ensures Step(c, s, h).hosts == s.hosts[h := AdvancedFrom(c, s.hosts[h], Peer(c, s, h) == h)]
    ensures AdvancedFrom(c, s.hosts[h], Peer(c, s, h) == h).place < |c.script|
    ensures forall y: nat, z: nat
              | y < |s.hosts| && z < |s.hosts| && ((y != h && z != h) || !Meet(c, y, z, s.hosts[h].round)) ::
              Step(c, s, h).channels[y][z] == s.channels[y][z]
  {
    var x, q := s.hosts[h], Peer(c, s, h);
    assert HostRight(c, s, h);
    AdvancedRight(c, x);
    MeetIsMutual(c, s, h, q, x.round);
  }

  lemma OtherSent(c: Config, s: State, h: nat, y: nat, z: nat)
    requires Good(c, s) && CanStep(c, s, h) && !Meet(c, y, z, s.hosts[h].round)
    ensures var x, x' := s.hosts[h], AdvancedFrom(c, s.hosts[h], Peer(c, s, h) == h);
            x'.place <= |c.script| && Sent(c, y, z, x'.round, x'.place) == Sent(c, y, z, x.round, x.place)
  {
    if Peer(c, s, h) == h { IdleSent(c, s.hosts[h], y, z); } else { AdvancedSent(c, s.hosts[h], y, z); }
  }

  /** A step does not touch the channel of two hosts that do not meet in the round of the one that moves. */
  lemma OtherChannels(c: Config, s: State, h: nat, y: nat, z: nat)
    requires Good(c, s) && CanStep(c, s, h) && y < |s.hosts| && z < |s.hosts|
    requires (y != h && z != h) || !Meet(c, y, z, s.hosts[h].round)
    ensures ChannelOK(c, Step(c, s, h), y, z)
  {
    assert HostRight(c, s, y) && HostRight(c, s, z) && ChannelRight(c, s, y, z);
    StepShape(c, s, h);
    if y == h || z == h { OtherSent(c, s, h, y, z); }
  }

  lemma Appended(a: seq<nat>, b: seq<nat>, m: seq<nat>, x: nat)
    requires a == b + m
    ensures a + [x] == b + (m + [x])
  {
  }

  /** The sender's channel gains the message. */
  lemma SendKeepsOwnChannel(c: Config, s: State, h: nat)
    requires Good(c, s) && CanStep(c, s, h) && Peer(c, s, h) != h && Sends(c, s, h)
    ensures ChannelOK(c, Step(c, s, h), h, Peer(c, s, h))
  {
    var x, q := s.hosts[h], Peer(c, s, h);
    assert HostRight(c, s, h) && HostRight(c, s, q) && ChannelRight(c, s, h, q);
    StepShape(c, s, h);
    MeetIsMutual(c, s, h, q, x.round);
    AdvancedSent(c, x, h, q);
    Appended(Sent(c, h, q, x.round, x.place), Sent(c, h, q, s.hosts[q].round, s.hosts[q].place), s.channels[h][q],
             x.counter);
  }

  lemma NotTheSender(c: Config, x: Host, q: nat, h: nat)
    requires ValidConfig(c) && x.place < |c.script| && h != q && c.script[x.place].fromLow == (h < q)
    ensures Advanced(c, x).place <= |c.script|
    ensures Sent(c, q, h, Advanced(c, x).round, Advanced(c, x).place) == Sent(c, q, h, x.round, x.place)
  {
    AdvancedSent(c, x, q, h);
  }

  lemma SendKeepsOtherChannel(c: Config, s: State, h: nat)
    requires Good(c, s) && CanStep(c, s, h) && Peer(c, s, h) != h && Sends(c, s, h)
    ensures ChannelOK(c, Step(c, s, h), Peer(c, s, h), h)
  {
    var q := Peer(c, s, h);
    assert HostRight(c, s, h) && HostRight(c, s, q) && ChannelRight(c, s, q, h);
    StepShape(c, s, h);
    NotTheSender(c, s.hosts[h], q, h);
  }

  lemma Taken(a: seq<nat>, b: seq<nat>, m: seq<nat>, x: nat)
    requires a == b + m && m != [] && m[0] == x
    ensures a == (b + [x]) + m[1..]
  {
  }

  /** The receiver's channel loses the message, whose value is the receiver's counter. */
  lemma ReceiveKeepsOwnChannel(c: Config, s: State, h: nat)
    requires Good(c, s) && CanStep(c, s, h) && Peer(c, s, h) != h && !Sends(c, s, h)
    ensures ChannelOK(c, Step(c, s, h), Peer(c, s, h), h)
    ensures !Step(c, s, h).failed
  {
    var x, q := s.hosts[h], Peer(c, s, h);
    assert HostRight(c, s, h) && HostRight(c, s, q) && ChannelRight(c, s, q, h);
    StepShape(c, s, h);
    MeetIsMutual(c, s, h, q, x.round);
    NextMessage(c, s, q, h);
    AdvancedSent(c, x, q, h);
    Taken(Sent(c, q, h, s.hosts[q].round, s.hosts[q].place), Sent(c, q, h, x.round, x.place), s.channels[q][h],
          x.counter);
  }

  lemma ReceiveKeepsOtherChannel(c: Config, s: State, h: nat)
    requires Good(c, s) && CanStep(c, s, h) && Peer(c, s, h) != h && !Sends(c, s, h)
    ensures ChannelOK(c, Step(c, s, h), h, Peer(c, s, h))
  {
    var x, q := s.hosts[h], Peer(c, s, h);
    assert HostRight(c, s, h) && HostRight(c, s, q) && ChannelRight(c, s, h, q);
    StepShape(c, s, h);
    AdvancedSent(c, x, h, q);
  }

  lemma StepChannel(c: Config, s: State, h: nat, y: nat, z: nat)
    requires Good(c, s) && CanStep(c, s, h) && y < |s.hosts| && z < |s.hosts|
    ensures ChannelOK(c, Step(c, s, h), y, z)
  {
    MeetIsMutual(c, s, y, z, s.hosts[h].round);
    if (y != h && z != h) || !Meet(c, y, z, s.hosts[h].round) {
      OtherChannels(c, s, h, y, z);
    } else if Sends(c, s, h) {
      SendKeepsOwnChannel(c, s, h);
      SendKeepsOtherChannel(c, s, h);
    } else {
      ReceiveKeepsOwnChannel(c, s, h);
      ReceiveKeepsOtherChannel(c, s, h);
    }
  }

  lemma StepHost(c: Config, s: State, h: nat, y: nat)
    requires Good(c, s) && CanStep(c, s, h) && y < |s.hosts|
    ensures HostRight(c, Step(c, s, h), y)
  {
    assert HostRight(c, s, y) && HostRight(c, s, h);
    StepShape(c, s, h);
    if y == h {
      if Peer(c, s, h) == h { IdledRight(c, s.hosts[h]); } else { AdvancedRight(c, s.hosts[h]); }
      MovedHost(c, s, h, Step(c, s, h));
    }
  }

  lemma IdledRight(c: Config, x: Host)
    requires ValidConfig(c) && x.place == 0 && x.counter == Expected(c, x.round, 0)
    ensures x.counter + c.idle == Expected(c, x.round + 1, 0)
  {
    assert (x.round + 1) * c.idle == x.round * c.idle + c.idle;
  }

  /** The host that has moved, with its new place and counter right, plays on only where it is not idle. */
  lemma MovedHost(c: Config, s: State, h: nat, r: State)
    requires Good(c, s) && CanStep(c, s, h) && |r.hosts| == |s.hosts|
    requires HostRight(c, s, h) && r.hosts[h] == AdvancedFrom(c, s.hosts[h], Peer(c, s, h) == h)
    requires r.hosts[h].counter == Expected(c, r.hosts[h].round, r.hosts[h].place)
    ensures HostRight(c, r, h)
  {
  }

  /** Every step keeps counters and channels right; no host ever finds a wrong value. */
  lemma StepKeepsGood(c: Config, s: State, h: nat)
    requires Good(c, s) && CanStep(c, s, h)
    ensures Good(c, Step(c, s, h))
  {
    var r := Step(c, s, h);
    if Peer(c, s, h) != h && !Sends(c, s, h) { ReceiveKeepsOwnChannel(c, s, h); }
    forall y: nat | y < |r.hosts| ensures HostRight(c, r, y) { StepHost(c, s, h, y); }
    forall y: nat, z: nat | y < |r.hosts| && z < |r.hosts| && HostRight(c, r, y) && HostRight(c, r, z)
      ensures ChannelRight(c, r, y, z) { StepChannel(c, s, h, y, z); }
  }

  // ---------------------------------------------------------------- no deadlock

  ghost predicate Behind(s: State, h: nat, q: nat)
    requires h < |s.hosts| && q < |s.hosts|
  {
    NotAfter(s.hosts[h].round, s.hosts[h].place, s.hosts[q].round, s.hosts[q].place)
  }

  /** A host that no other host is behind. */
  lemma {:induction false} FindLast(s: State, k: nat) returns (h: nat)
    requires 0 < k <= |s.hosts|
    ensures h < k && forall q: nat | q < k :: Behind(s, h, q)
    decreases k
  {
    if k == 1 {
      h := 0;
    } else {
      var first := FindLast(s, k - 1);
      h := if Behind(s, first, k - 1) then first else k - 1;
      forall q: nat | q < k ensures Behind(s, h, q) {
        if q < k - 1 { assert Behind(s, first, q); }
      }
    }
  }

  /** The channel from a host to one that is not behind it in the same round or later is empty. */
  lemma ChannelEmpty(c: Config, s: State, h: nat, q: nat)
    requires Good(c, s) && h < |s.hosts| && q < |s.hosts| && Behind(s, h, q)
    ensures s.channels[h][q] == []
  {
    assert HostRight(c, s, h) && HostRight(c, s, q) && ChannelRight(c, s, h, q);
    SentGrows(c, h, q, s.hosts[h].round, s.hosts[h].place, s.hosts[q].round, s.hosts[q].place);
  }

  /** A sender further on has left a message for the receiver. */
  lemma MessageWaits(c: Config, s: State, h: nat, q: nat)
    requires Good(c, s) && h < |s.hosts| && q < |s.hosts| && !Done(c, s, h) && s.hosts[h].place < |c.script|
    requires Meet(c, q, h, s.hosts[h].round) && c.script[s.hosts[h].place].fromLow == (q < h) && !Behind(s, q, h)
    ensures s.channels[q][h] != []
  {
    assert HostRight(c, s, h) && HostRight(c, s, q) && ChannelRight(c, s, q, h);
    var x, y := s.hosts[h], s.hosts[q];
    SentMore(c, q, h, x.round, x.place, x.place + 1, y.round, y.place);
  }

  lemma SentMore(c: Config, q: nat, h: nat, r: nat, k: nat, next: nat, r': nat, k': nat)
    requires next == k + 1 <= |c.script| && k' <= |c.script| && NotAfter(r, next, r', k')
    requires Meet(c, q, h, r) && c.script[k].fromLow == (q < h)
    ensures |Sent(c, q, h, r, k)| < |Sent(c, q, h, r', k')|
  {
    SentNext(c, q, h, r, k, next);
    SentGrows(c, q, h, r, next, r', k');
  }

  /** Unless all hosts are done, some host can take a step. */
  lemma NoDeadlock(c: Config, s: State)
    requires Good(c, s) && exists h: nat :: h < |s.hosts| && !Done(c, s, h)
    ensures exists h: nat :: CanStep(c, s, h)
  {
    var h := FindLast(s, |s.hosts|);
    assert HostRight(c, s, h);
    var z: nat :| z < |s.hosts| && !Done(c, s, z);
    assert Behind(s, h, z);
    var q := Peer(c, s, h);
    MeetIsMutual(c, s, h, q, s.hosts[h].round);
    if q == h || Sends(c, s, h) {
      if q != h { ChannelEmpty(c, s, h, q); }
      assert CanStep(c, s, h);
    } else if Behind(s, q, h) {
      assert Behind(s, h, q);
      assert HostRight(c, s, q) && Peer(c, s, q) == h;
      ChannelEmpty(c, s, q, h);
      assert CanStep(c, s, q);
    } else {
      MessageWaits(c, s, h, q);
      assert CanStep(c, s, h);
    }
  }

  // ---------------------------------------------------------------- whole runs

  /** `states` is a run: every state follows from the one before by a step of one host. */
  ghost predicate IsRun(c: Config, states: seq<State>) {
    |states| > 0 && Initial(c, states[0])
      && forall k: nat, k': nat | k' == k + 1 < |states| :: Follows(c, states[k], states[k'])
  }

  ghost predicate Follows(c: Config, s: State, s': State) {
    exists h: nat :: CanStep(c, s, h) && s' == Step(c, s, h)
  }

  lemma {:induction false} RunIsGood(c: Config, states: seq<State>, k: nat)
    requires ValidConfig(c) && IsRun(c, states) && k < |states|
    ensures Good(c, states[k]) && |states[k].hosts| == |states[0].hosts|
    decreases k
  {
    if k == 0 {
      InitialIsGood(c, states[0]);
    } else {
      RunIsGood(c, states, k - 1);
      assert Follows(c, states[k - 1], states[k]);
      var h: nat :| CanStep(c, states[k - 1], h) && states[k] == Step(c, states[k - 1], h);
      StepKeepsGood(c, states[k - 1], h);
    }
  }

  /** In any run no host finds a wrong value, all hosts start a round with the same counter, and a state
      in which no host can move is one in which all are done, with equal counters and empty channels. */
  lemma RunsAreSafe(c: Config, states: seq<State>, k: nat)
    requires ValidConfig(c) && IsRun(c, states) && k < |states|
    ensures !states[k].failed && Sized(c, states[k])
    ensures forall h: nat | h < |states[k].hosts| && states[k].hosts[h].place == 0 ::
              states[k].hosts[h].counter == states[k].hosts[h].round * c.idle
    ensures (forall h: nat :: !CanStep(c, states[k], h)) ==>
              && (forall h: nat | h < |states[k].hosts| :: states[k].hosts[h] == Host(|c.peers|, 0, |c.peers| * c.idle))
              && (forall h: nat, q: nat | h < |states[k].hosts| && q < |states[k].hosts| ::
                    states[k].channels[h][q] == [])
  {
    var s := states[k];
    RunIsGood(c, states, k);
    forall h: nat | h < |s.hosts| && s.hosts[h].place == 0 ensures s.hosts[h].counter == s.hosts[h].round * c.idle {
      assert HostRight(c, s, h);
    }
    if forall h: nat :: !CanStep(c, s, h) {
      if exists h: nat :: h < |s.hosts| && !Done(c, s, h) { NoDeadlock(c, s); }
      forall h: nat | h < |s.hosts| ensures s.hosts[h] == Host(|c.peers|, 0, |c.peers| * c.idle) {
        assert HostRight(c, s, h) && Done(c, s, h);
      }
      forall h: nat, q: nat | h < |s.hosts| && q < |s.hosts|
        ensures s.channels[h][q] == [] {
        ChannelEmpty(c, s, h, q);
      }
    }
  }

  /** No channel ever holds more messages than it has room for. */
  lemma {:induction false} ChannelsFit(c: Config, states: seq<State>, k: nat, h: nat, q: nat)
    requires ValidConfig(c) && IsRun(c, states) && k < |states| && h < |states[0].hosts| && q < |states[0].hosts|
    ensures |states[k].channels| == |states[0].hosts| == |states[k].channels[h]|
    ensures |states[k].channels[h][q]| <= c.capacity
    decreases k
  {
    RunIsGood(c, states, k);
    if k > 0 {
      ChannelsFit(c, states, k - 1, h, q);
      RunIsGood(c, states, k - 1);
      assert Follows(c, states[k - 1], states[k]);
      var y: nat :| CanStep(c, states[k - 1], y) && states[k] == Step(c, states[k - 1], y);
      StepFits(c, states[k - 1], y, h, q);
    }
  }

  lemma StepFits(c: Config, s: State, y: nat, h: nat, q: nat)
    requires Good(c, s) && CanStep(c, s, y) && h < |s.hosts| && q < |s.hosts| && |s.channels[h][q]| <= c.capacity
    ensures Sized(c, Step(c, s, y)) && |Step(c, s, y).hosts| == |s.hosts|
    ensures |Step(c, s, y).channels[h][q]| <= c.capacity
  {
    StepShape(c, s, y);
  }

  /** Whatever a host receives in a run is its own counter. */
  lemma ReceivedIsCounter(c: Config, states: seq<State>, k: nat, h: nat)
    requires ValidConfig(c) && IsRun(c, states) && k < |states| && CanStep(c, states[k], h)
    requires Peer(c, states[k], h) != h && !Sends(c, states[k], h)
    ensures states[k].channels[Peer(c, states[k], h)][h][0] == states[k].hosts[h].counter
  {
    RunIsGood(c, states, k);
    var s, q := states[k], Peer(c, states[k], h);
    assert HostRight(c, s, h);
    MeetIsMutual(c, s, h, q, s.hosts[h].round);
    NextMessage(c, s, q, h);
  }

  /** When no host can move any more, all counters of ping-pong are at |peers| * 2 * (innerRepeats + 1), and all of the
      bandwidth test at |peers| * 2 * blockCount. */
  lemma FinalCounters(peers: seq<seq<nat>>, repeats: nat, capacity: nat, c: Config, states: seq<State>, k: nat, h: nat)
    requires Matching(peers) && capacity > 0
    requires c == PingPong(peers, repeats, capacity) || c == Bandwidth(peers, repeats, capacity)
    requires IsRun(c, states) && k < |states| && h < |states[k].hosts| && forall y: nat :: !CanStep(c, states[k], y)
    ensures c == PingPong(peers, repeats, capacity) ==> states[k].hosts[h].counter == |peers| * (2 * (repeats + 1))
    ensures c == Bandwidth(peers, repeats, capacity) ==> states[k].hosts[h].counter == |peers| * (2 * repeats)
  {
    ProtocolsAreValid(peers, repeats, capacity);
    RunsAreSafe(c, states, k);
  }

  /** The steps host `h` takes from round `r` on: one in every round in which it has no peer, and the whole script in
      the others. */
  ghost function StepsFrom(c: Config, h: nat, r: nat): (m: nat)
    decreases |c.peers| - r
  {
    if r >= |c.peers| then 0 else StepsInRound(c, h, r) + StepsFrom(c, h, r + 1)
  }

  ghost function StepsInRound(c: Config, h: nat, r: nat): nat
    requires r < |c.peers|
  {
    if h < |c.peers[r]| && c.peers[r][h] == h then 1 else |c.script|
  }

  /** The steps host `h` has left. */
  ghost function Left(c: Config, h: nat, x: Host): nat {
    if x.round < |c.peers| && x.place < StepsInRound(c, h, x.round) then StepsFrom(c, h, x.round) - x.place else 0
  }

  ghost function AllLeft(c: Config, hosts: seq<Host>): nat {
    if hosts == [] then 0 else AllLeft(c, hosts[..|hosts| - 1]) + Left(c, |hosts| - 1, hosts[|hosts| - 1])
  }

  lemma {:induction false} OneLeftLess(c: Config, hosts: seq<Host>, h: nat, x: Host)
    requires h < |hosts| && Left(c, h, x) + 1 == Left(c, h, hosts[h])
    ensures AllLeft(c, hosts[h := x]) + 1 == AllLeft(c, hosts)
  {
    var k := |hosts| - 1;
    if h < k {
      assert hosts[h := x][..k] == hosts[..k][h := x];
      OneLeftLess(c, hosts[..k], h, x);
    } else {
      assert hosts[h := x][..k] == hosts[..k];
    }
  }

  lemma LeftNextRound(c: Config, h: nat, x: Host, y: Host)
    requires x.round < |c.peers| && y.round == x.round + 1 && y.place == 0 && |c.script| > 0
    requires x.place + 1 == StepsInRound(c, h, x.round)
    ensures Left(c, h, y) + 1 == Left(c, h, x)
  {
    assert StepsFrom(c, h, x.round) == StepsInRound(c, h, x.round) + StepsFrom(c, h, x.round + 1);
  }

  lemma StepUsesAction(c: Config, s: State, h: nat)
    requires Good(c, s) && CanStep(c, s, h)
    ensures AllLeft(c, Step(c, s, h).hosts) + 1 == AllLeft(c, s.hosts)
  {
    StepShape(c, s, h);
    assert HostRight(c, s, h);
    var x, y := s.hosts[h], AdvancedFrom(c, s.hosts[h], Peer(c, s, h) == h);
    if y.round == x.round + 1 { LeftNextRound(c, h, x, y); }
    OneLeftLess(c, s.hosts, h, y);
  }

  lemma OneStepLess(c: Config, s: State, s': State)
    requires Good(c, s) && Follows(c, s, s')
    ensures AllLeft(c, s'.hosts) + 1 == AllLeft(c, s.hosts)
  {
    var h: nat :| CanStep(c, s, h) && s' == Step(c, s, h);
    StepUsesAction(c, s, h);
  }

  lemma {:induction false} DoneLeft(c: Config, hosts: seq<Host>)
    requires forall h: nat | h < |hosts| :: hosts[h].round >= |c.peers|
    ensures AllLeft(c, hosts) == 0
  {
    if hosts != [] { DoneLeft(c, hosts[..|hosts| - 1]); }
  }

  /** Every step uses one action, or the one step of an idle round; so a run ends after exactly as many steps as there
      are, whatever the interleaving. */
  lemma {:induction false} RunsEnd(c: Config, states: seq<State>, k: nat)
    requires ValidConfig(c) && IsRun(c, states) && k < |states|
    ensures AllLeft(c, states[k].hosts) + k == AllLeft(c, states[0].hosts)
    ensures (forall h: nat :: !CanStep(c, states[k], h)) ==> k == AllLeft(c, states[0].hosts)
    decreases k
  {
    if k > 0 {
      RunsEnd(c, states, k - 1);
      RunIsGood(c, states, k - 1);
      assert Follows(c, states[k - 1], states[k]);
      OneStepLess(c, states[k - 1], states[k]);
    }
    if forall h: nat :: !CanStep(c, states[k], h) { FinishedLeft(c, states, k); }
  }

  lemma FinishedLeft(c: Config, states: seq<State>, k: nat)
    requires ValidConfig(c) && IsRun(c, states) && k < |states| && forall h: nat :: !CanStep(c, states[k], h)
    ensures AllLeft(c, states[k].hosts) == 0
  {
    RunsAreSafe(c, states, k);
    DoneLeft(c, states[k].hosts);
  }
}
