/**
 * The response packet codec: which routes are advertised to a neighbour
 * (split horizon plus flagged unreachable routes), how they are split into
 * packets of at most 25 entries, and the big-endian byte layout.
 *
 * The layout follows section 4 of RFC 2453 (RIP version 2) with two changes:
 * the two header bytes that the RFC reserves carry the sender's router id,
 * and the address field of an entry carries a destination router id.
 *
 *   header (4 bytes): command = 2, version = 2, sender id (2 bytes)
 *   entry (20 bytes): family at 0-1, zero at 2-3, destination id at 4-7,
 *                     zero at 8-15, metric at 16-19
 */
module Packet {
  import opened Common
  import opened RouteEntries
  import opened RoutingTables

  type byte = b: int | 0 <= b < 256

  // Contracts that multiply or divide by an entry length or a packet capacity
  // write the literals 20 and 25, so that the solver sees linear arithmetic.
  const MaxEntries: nat := 25
  const EntryLen: nat := 20
  const HeaderLen: nat := 4
  const RipPacketCommand: int := 2
  const RipVersionNumber: int := 2

  datatype ResponseEntry = ResponseEntry(afi: int, targetRouterId: int, metric: int)
  datatype ResponsePacket = ResponsePacket(command: int, version: int, senderRouterId: int, entries: seq<ResponseEntry>)

  /* ---------------------------------------------------------------------- */
  /* Big-endian integers                                                    */
  /* ---------------------------------------------------------------------- */

  function Pow256(n: nat): (p: nat)
    ensures p >= 1
  {
    if n == 0 then 1 else 256 * Pow256(n - 1)
  }

  /** `x` can be written as an unsigned big-endian number of `n` bytes. */
  predicate FitsIn(x: int, n: nat) {
    0 <= x < Pow256(n)
  }

  /** The unsigned big-endian value of a byte sequence. */
  function FromBigEndian(s: seq<byte>): nat {
    if |s| == 0 then 0 else FromBigEndian(s[..|s| - 1]) * 256 + s[|s| - 1]
  }

  function Zeros(n: nat): (s: seq<byte>)
    ensures |s| == n
    ensures forall i :: 0 <= i < n ==> s[i] == 0
  {
    seq(n, _ => 0)
  }

  /** The big-endian value of the two bytes at `i`. */
  function Be16(b: seq<byte>, i: nat): nat
    requires i + 2 <= |b|
  {
    b[i] as int * 256 + b[i + 1] as int
  }

  /** The big-endian value of the four bytes at `i`. */
  function Be32(b: seq<byte>, i: nat): nat
    requires i + 4 <= |b|
  {
    ((b[i] as int * 256 + b[i + 1] as int) * 256 + b[i + 2] as int) * 256 + b[i + 3] as int
  }

  /** The bytes from `i` up to `i + n` are worth 256 times those up to `i + n - 1`, plus the last one. */
  lemma {:induction false} FromBigEndianRange(b: seq<byte>, i: nat, n: nat)
    requires 0 < n && i + n <= |b|
    ensures FromBigEndian(b[i..i + n]) == FromBigEndian(b[i..i + n - 1]) * 256 + b[i + n - 1]
  {
    assert b[i..i + n][..n - 1] == b[i..i + n - 1];
  }

  /** The fixed-width readers give the big-endian value of the two or four bytes at `i`. */
  lemma {:induction false} FixedWidthValues(b: seq<byte>, i: nat)
    ensures i + 2 <= |b| ==> Be16(b, i) == FromBigEndian(b[i..i + 2])
    ensures i + 4 <= |b| ==> Be32(b, i) == FromBigEndian(b[i..i + 4])
  {
    if i + 2 <= |b| {
      assert b[i..i] == [];
      FromBigEndianRange(b, i, 1);
      FromBigEndianRange(b, i, 2);
    }
    if i + 4 <= |b| {
      FromBigEndianRange(b, i, 3);
      FromBigEndianRange(b, i, 4);
    }
  }

  /** `x` as two big-endian bytes. */
  function Bytes16(x: int): (s: seq<byte>)
    requires FitsIn(x, 2)
    ensures |s| == 2 && Be16(s, 0) == x
  {
    [x / 256, x % 256]
  }

  /** `x` as four big-endian bytes. */
  function Bytes32(x: int): (s: seq<byte>)
    requires FitsIn(x, 4)
    ensures |s| == 4 && Be32(s, 0) == x
  {
    var q1 := x / 256;
    var q2 := q1 / 256;
    [q2 / 256, q2 % 256, q1 % 256, x % 256]
  }

  /** The fixed-width encodings have the big-endian value of what they encode. */
  lemma {:induction false} BytesValues(x: int)
    ensures FitsIn(x, 2) ==> FromBigEndian(Bytes16(x)) == x
    ensures FitsIn(x, 4) ==> FromBigEndian(Bytes32(x)) == x
  {
    if FitsIn(x, 2) {
      FixedWidthValues(Bytes16(x), 0);
      assert Bytes16(x)[0..2] == Bytes16(x);
    }
    if FitsIn(x, 4) {
      FixedWidthValues(Bytes32(x), 0);
      assert Bytes32(x)[0..4] == Bytes32(x);
    }
  }

  /* ---------------------------------------------------------------------- */
  /* Choosing and grouping the advertised routes                            */
  /* ---------------------------------------------------------------------- */

  /**
   * A route is advertised to `routerId` unless it was learned from that
   * router (split horizon), and only while it is reachable or flagged as
   * changed (so that a route just made unreachable is still announced).
   */
  predicate Advertised(e: RouteEntry, routerId: int) {
    e.learnedFrom != routerId && (e.metric < Infinity || e.flag)
  }

  /** The destination ids of a list of selected rows. */
  function KeysOf(sel: seq<(int, RouteEntry)>): (ks: seq<int>)
    ensures |ks| == |sel|
    ensures forall j :: 0 <= j < |sel| ==> ks[j] == sel[j].0
  {
    seq(|sel|, j requires 0 <= j < |sel| => sel[j].0)
  }

  /** The advertised rows among the keys `ks`, in the order of `ks`. */
  function SelectFrom(ks: seq<int>, routes: map<int, RouteEntry>, routerId: int): seq<(int, RouteEntry)>
    requires forall k :: k in ks ==> k in routes
  {
    if |ks| == 0 then []
    else
      var k := ks[0];
      var rest := SelectFrom(ks[1..], routes, routerId);
      if Advertised(routes[k], routerId) then [(k, routes[k])] + rest else rest
  }

  /**
   * Over a list of distinct keys, the selection holds exactly the advertised
   * routes, with their stored entries, in the order of the list.
   */
  lemma {:induction false} SelectFromProperties(ks: seq<int>, routes: map<int, RouteEntry>, routerId: int)
    requires Distinct(ks) && forall k :: k in ks ==> k in routes
    ensures forall j :: 0 <= j < |SelectFrom(ks, routes, routerId)| ==>
              var row := SelectFrom(ks, routes, routerId)[j];
              row.0 in ks && row.0 in routes && row.1 == routes[row.0] && Advertised(row.1, routerId)
    ensures forall j1, j2 :: 0 <= j1 < j2 < |SelectFrom(ks, routes, routerId)| ==>
              IndexOf(ks, SelectFrom(ks, routes, routerId)[j1].0) < IndexOf(ks, SelectFrom(ks, routes, routerId)[j2].0)
    ensures forall k :: k in ks && Advertised(routes[k], routerId) ==> k in KeysOf(SelectFrom(ks, routes, routerId))
  {
    if |ks| > 0 {
      var k := ks[0];
      assert k in ks;
      DistinctSuffix(ks, 1);
      SelectFromProperties(ks[1..], routes, routerId);
      var rest := SelectFrom(ks[1..], routes, routerId);
      var sel := SelectFrom(ks, routes, routerId);
      assert k !in ks[1..];
      if Advertised(routes[k], routerId) {
        assert sel == [(k, routes[k])] + rest;
        SelectFromKeep(ks, (k, routes[k]), rest);
        KeysOfCons((k, routes[k]), rest);
      } else {
        assert sel == rest;
        SelectFromSkip(ks, rest);
      }
      forall x | x in ks && Advertised(routes[x], routerId)
        ensures x in KeysOf(sel)
      {
        if x != k {
          assert x in ks[1..];
        }
      }
    }
  }

  lemma {:induction false} KeysOfCons(first: (int, RouteEntry), rest: seq<(int, RouteEntry)>)
    ensures KeysOf([first] + rest) == [first.0] + KeysOf(rest)
  {
  }

  /** A position in the tail of a sequence is one less than in the whole sequence. */
  lemma {:induction false} IndexOfTail(ks: seq<int>, x: int)
    requires |ks| > 0 && x in ks[1..] && x != ks[0]
    ensures IndexOf(ks, x) == 1 + IndexOf(ks[1..], x)
  {
  }

  /** The tail's selection is still ordered by positions in the whole sequence. */
  lemma {:induction false} SelectFromSkip(ks: seq<int>, rest: seq<(int, RouteEntry)>)
    requires |ks| > 0 && Distinct(ks)
    requires forall j :: 0 <= j < |rest| ==> rest[j].0 in ks[1..]
    requires forall j1, j2 :: 0 <= j1 < j2 < |rest| ==> IndexOf(ks[1..], rest[j1].0) < IndexOf(ks[1..], rest[j2].0)
    ensures forall j1, j2 :: 0 <= j1 < j2 < |rest| ==> IndexOf(ks, rest[j1].0) < IndexOf(ks, rest[j2].0)
  {
    assert ks[0] !in ks[1..];
    forall j1, j2 | 0 <= j1 < j2 < |rest| ensures IndexOf(ks, rest[j1].0) < IndexOf(ks, rest[j2].0) {
      IndexOfTail(ks, rest[j1].0);
      IndexOfTail(ks, rest[j2].0);
    }
  }

  /** Putting the first key in front of the tail's selection keeps the selection ordered. */
  lemma {:induction false} SelectFromKeep(ks: seq<int>, first: (int, RouteEntry), rest: seq<(int, RouteEntry)>)
    requires |ks| > 0 && Distinct(ks) && first.0 == ks[0]
    requires forall j :: 0 <= j < |rest| ==> rest[j].0 in ks[1..]
    requires forall j1, j2 :: 0 <= j1 < j2 < |rest| ==> IndexOf(ks[1..], rest[j1].0) < IndexOf(ks[1..], rest[j2].0)
    ensures var sel := [first] + rest;
            forall j1, j2 :: 0 <= j1 < j2 < |sel| ==> IndexOf(ks, sel[j1].0) < IndexOf(ks, sel[j2].0)
  {
    var sel := [first] + rest;
    assert ks[0] !in ks[1..];
    forall j1, j2 | 0 <= j1 < j2 < |sel| ensures IndexOf(ks, sel[j1].0) < IndexOf(ks, sel[j2].0) {
      var x2 := rest[j2 - 1].0;
      assert sel[j2] == rest[j2 - 1];
      IndexOfTail(ks, x2);
      if j1 == 0 {
        assert sel[0].0 == ks[0];
      } else {
        var x1 := rest[j1 - 1].0;
        assert sel[j1] == rest[j1 - 1];
        IndexOfTail(ks, x1);
      }
    }
  }

  /**
   * The rows sent to `routerId`: exactly the advertised routes, each once,
   * in the table's iteration order.
   */
  function Select(t: Table, routerId: int): (sel: seq<(int, RouteEntry)>)
    requires Valid(t)
    ensures forall j :: 0 <= j < |sel| ==> sel[j].0 in t.routes && sel[j].1 == t.routes[sel[j].0]
    ensures forall k :: k in KeysOf(sel) <==> k in t.routes && Advertised(t.routes[k], routerId)
    ensures forall j1, j2 :: 0 <= j1 < j2 < |sel| ==> IndexOf(t.keys, sel[j1].0) < IndexOf(t.keys, sel[j2].0)
    ensures Distinct(KeysOf(sel))
  {
    SelectFromProperties(t.keys, t.routes, routerId);
    SelectFrom(t.keys, t.routes, routerId)
  }

  /** Concatenation of a list of lists. */
  function Flatten<T>(ss: seq<seq<T>>): seq<T> {
    if |ss| == 0 then [] else ss[0] + Flatten(ss[1..])
  }

  lemma {:induction false} FlattenAppend<T>(ss: seq<seq<T>>, s: seq<T>)
    ensures Flatten(ss + [s]) == Flatten(ss) + s
  {
    if |ss| == 0 {
      assert ss + [s] == [s];
    } else {
      assert (ss + [s])[1..] == ss[1..] + [s];
      FlattenAppend(ss[1..], s);
    }
  }

  /**
   * The packet-sized groups of a list of rows: full groups of 25, then one
   * last group holding the remainder, which is empty when the number of rows
   * is a multiple of 25 (including zero).
   */
  function Chunks<T>(s: seq<T>): (cs: seq<seq<T>>)
    decreases |s|
    ensures |cs| > 0
    ensures forall i :: 0 <= i < |cs| - 1 ==> |cs[i]| == MaxEntries
    ensures |cs[|cs| - 1]| < MaxEntries
    ensures Flatten(cs) == s
  {
    if |s| < MaxEntries then
      assert Flatten([s]) == s + Flatten([s][1..]);
      [s]
    else
      var rest := Chunks(s[MaxEntries..]);
      var cs := [s[..MaxEntries]] + rest;
      assert cs[1..] == rest;
      cs
  }

  /** There are `|s| / 25 + 1` groups, and the last one holds the `|s| % 25` rows left over. */
  lemma {:induction false} ChunksCount<T>(s: seq<T>)
    ensures |Chunks(s)| == |s| / 25 + 1
    ensures |Chunks(s)[|Chunks(s)| - 1]| == |s| % 25
    decreases |s|
  {
    if |s| >= MaxEntries {
      ChunksCount(s[MaxEntries..]);
    }
  }

  /**
   * Chunks is the only grouping whose groups hold 25 rows each except a
   * shorter last one and concatenate to the rows.
   */
  lemma {:induction false} ChunksUnique<T>(cs: seq<seq<T>>, s: seq<T>)
    requires |cs| > 0
    requires forall i :: 0 <= i < |cs| - 1 ==> |cs[i]| == MaxEntries
    requires |cs[|cs| - 1]| < MaxEntries
    requires Flatten(cs) == s
    ensures cs == Chunks(s)
    decreases |cs|
  {
    if |cs| == 1 {
      assert Flatten(cs) == cs[0] + Flatten(cs[1..]);
      assert s == cs[0];
    } else {
      var rest := Flatten(cs[1..]);
      assert s == cs[0] + rest;
      assert s[..MaxEntries] == cs[0];
      assert s[MaxEntries..] == rest;
      ChunksUnique(cs[1..], rest);
      assert cs == [cs[0]] + cs[1..];
    }
  }

  /** Every key from position `i` on has a route. */
  predicate SuffixSelectable(t: Table, i: nat)
    requires i <= |t.keys|
  {
    forall k :: k in t.keys[i..] ==> k in t.routes
  }

  /** Unfolds the selection over the table's keys from position `i` by one key. */
  lemma {:induction false} SelectStepAt(t: Table, i: nat, routerId: int)
    requires Valid(t) && i < |t.keys|
    ensures SuffixSelectable(t, i) && SuffixSelectable(t, i + 1)
    ensures t.keys[i] in t.routes
    ensures Advertised(t.routes[t.keys[i]], routerId) ==>
              SelectFrom(t.keys[i..], t.routes, routerId)
              == [(t.keys[i], t.routes[t.keys[i]])] + SelectFrom(t.keys[i + 1..], t.routes, routerId)
    ensures !Advertised(t.routes[t.keys[i]], routerId) ==>
              SelectFrom(t.keys[i..], t.routes, routerId) == SelectFrom(t.keys[i + 1..], t.routes, routerId)
  {
    assert t.keys[i] in t.keys;
    assert t.keys[i..][0] == t.keys[i];
    assert t.keys[i..][1..] == t.keys[i + 1..];
  }

  /** Every group holds a packet's worth of rows. */
  predicate AllFull<T>(cs: seq<seq<T>>)
  {
    forall j :: 0 <= j < |cs| ==> |cs[j]| == MaxEntries
  }

  lemma {:induction false} AllFullAppend<T>(cs: seq<seq<T>>, c: seq<T>)
    requires AllFull(cs) && |c| == MaxEntries
    ensures AllFull(cs + [c])
  {
    assert forall j :: 0 <= j < |cs| ==> (cs + [c])[j] == cs[j];
  }

  /** Closing the group in progress after full groups yields the grouping of all the rows. */
  lemma {:induction false} CloseGroups<T>(cs: seq<seq<T>>, last: seq<T>, s: seq<T>)
    requires AllFull(cs) && |last| < MaxEntries && Flatten(cs) + last == s
    ensures cs + [last] == Chunks(s)
  {
    FlattenAppend(cs, last);
    ChunksUnique(cs + [last], s);
  }

  /** Moving one element from the front of the rest to the end of the middle part. */
  lemma {:induction false} AppendShift<T>(a: seq<T>, e: seq<T>, x: T, rest: seq<T>, whole: seq<T>)
    requires a + e + ([x] + rest) == whole
    ensures a + (e + [x]) + rest == whole
  {
    assert a + e + ([x] + rest) == a + (e + [x]) + rest;
  }

  /**
   * The row groups for `routerId`, accumulated the way the table is walked:
   * a group is emitted as soon as it holds 25 rows, and the group in progress
   * (possibly empty) is emitted at the end.
   */
  method NextPacketEntries(t: Table, routerId: int) returns (chunks: seq<seq<(int, RouteEntry)>>)
    requires Valid(t)
    ensures chunks == Chunks(Select(t, routerId))
    ensures Flatten(chunks) == Select(t, routerId)
    ensures forall i :: 0 <= i < |chunks| - 1 ==> |chunks[i]| == MaxEntries
    ensures |chunks[|chunks| - 1]| < MaxEntries
  {
    ghost var goal := SelectFrom(t.keys, t.routes, routerId);
    chunks := [];
    ghost var flat: seq<(int, RouteEntry)> := [];
    var entries: seq<(int, RouteEntry)> := [];
    var i := 0;
    assert t.keys[0..] == t.keys;
    ghost var pending := SelectFrom(t.keys[i..], t.routes, routerId);
    while i < |t.keys|
      invariant 0 <= i <= |t.keys|
      invariant SuffixSelectable(t, i)
      invariant pending == SelectFrom(t.keys[i..], t.routes, routerId)
      invariant AllFull(chunks)
      invariant |entries| < MaxEntries
      invariant flat == Flatten(chunks)
      invariant flat + entries + pending == goal
    {
      var id := t.keys[i];
      var route := t.routes[id];
      SelectStepAt(t, i, routerId);
      ghost var rest := SelectFrom(t.keys[i + 1..], t.routes, routerId);
      if route.learnedFrom != routerId && (route.metric < Infinity || route.flag) {
        AppendShift(flat, entries, (id, route), rest, goal);
        entries := entries + [(id, route)];
        if |entries| == MaxEntries {
          FlattenAppend(chunks, entries);
          AllFullAppend(chunks, entries);
          chunks := chunks + [entries];
          flat := flat + entries;
          entries := [];
          assert flat + entries == flat;
        }
      }
      i := i + 1;
      pending := rest;
    }
    assert t.keys[i..] == [];
    assert flat + entries == goal;
    CloseGroups(chunks, entries, goal);
    chunks := chunks + [entries];
  }

  /* ---------------------------------------------------------------------- */
  /* Encoding                                                               */
  /* ---------------------------------------------------------------------- */

  /** The sender id fills the two header bytes after command and version. */
  function PacketHeader(senderId: int): (h: seq<byte>)
    requires FitsIn(senderId, 2)
    ensures |h| == HeaderLen
    ensures h[0] == RipPacketCommand && h[1] == RipVersionNumber
    ensures Be16(h, 2) == senderId
  {
    var id := Bytes16(senderId);
    [RipPacketCommand as byte, RipVersionNumber as byte, id[0], id[1]]
  }

  predicate RowEncodable(row: (int, RouteEntry)) {
    FitsIn(row.0, 4) && FitsIn(row.1.metric, 4)
  }

  /** Every row of a list has a destination and metric that fit their fields. */
  predicate AllEncodable(rows: seq<(int, RouteEntry)>) {
    forall j :: 0 <= j < |rows| ==> RowEncodable(rows[j])
  }

  /** One 20-byte entry; every byte outside the three fields is zero. */
  function EntryBytes(destination: int, metric: int): (b: seq<byte>)
    requires FitsIn(destination, 4) && FitsIn(metric, 4)
    ensures |b| == EntryLen
    ensures Be16(b, 0) == AfInet
    ensures Be32(b, 4) == destination
    ensures Be32(b, 16) == metric
    ensures forall i :: 2 <= i < 4 || 8 <= i < 16 ==> b[i] == 0
  {
    var f := Bytes16(AfInet);
    var d := Bytes32(destination);
    var m := Bytes32(metric);
    [f[0], f[1], 0, 0, d[0], d[1], d[2], d[3], 0, 0, 0, 0, 0, 0, 0, 0, m[0], m[1], m[2], m[3]]
  }

  /** The entries of a packet, one after the other. */
  function EncodeEntries(rows: seq<(int, RouteEntry)>): (b: seq<byte>)
    requires forall j :: 0 <= j < |rows| ==> RowEncodable(rows[j])
    ensures |b| == 20 * |rows|
  {
    if |rows| == 0 then []
    else
      assert RowEncodable(rows[0]);
      EntryBytes(rows[0].0, rows[0].1.metric) + EncodeEntries(rows[1..])
  }

  /** Appending the entries leaves the header bytes where they were. */
  lemma {:induction false} HeaderKept(h: seq<byte>, body: seq<byte>)
    requires |h| == HeaderLen
    ensures |h + body| == HeaderLen + |body|
    ensures (h + body)[0] == h[0] && (h + body)[1] == h[1] && Be16(h + body, 2) == Be16(h, 2)
  {
  }

  /**
   * A packet carrying `rows`, sent by `senderId`. There is no packet when a
   * value does not fit its field (the byte conversion refuses it).
   */
  function ConstructPacket(senderId: int, rows: seq<(int, RouteEntry)>): (p: Option<seq<byte>>)
    ensures p.Some? <==> FitsIn(senderId, 2) && AllEncodable(rows)
    ensures p.Some? ==> |p.value| == HeaderLen + 20 * |rows|
    ensures p.Some? ==> p.value[0] == RipPacketCommand && p.value[1] == RipVersionNumber
    ensures p.Some? ==> Be16(p.value, 2) == senderId
  {
    if FitsIn(senderId, 2) && AllEncodable(rows) then
      var h := PacketHeader(senderId);
      var body := EncodeEntries(rows);
      HeaderKept(h, body);
      Some(h + body)
    else
      None
  }

  /** One packet per group, in group order; none at all if any group cannot be encoded. */
  function ConstructAll(senderId: int, groups: seq<seq<(int, RouteEntry)>>): (ps: Option<seq<seq<byte>>>)
    ensures ps.Some? <==> forall i :: 0 <= i < |groups| ==> ConstructPacket(senderId, groups[i]).Some?
    ensures ps.Some? ==> |ps.value| == |groups|
    ensures ps.Some? ==> forall i :: 0 <= i < |groups| ==> ps.value[i] == ConstructPacket(senderId, groups[i]).value
  {
    if |groups| == 0 then Some([])
    else
      match ConstructPacket(senderId, groups[0])
      case None => None
      case Some(p) =>
        match ConstructAll(senderId, groups[1..])
        case None => None
        case Some(ps) => Some([p] + ps)
  }

  /** The packets that tell `routerId` about this table. */
  function ConstructPackets(t: Table, routerId: int): (ps: Option<seq<seq<byte>>>)
    requires Valid(t)
    ensures ps.Some? <==> FitsIn(t.routerId, 2) && AllEncodable(Select(t, routerId))
    ensures ps.Some? ==> |ps.value| == |Select(t, routerId)| / 25 + 1
    ensures ps.Some? ==> |ps.value| == |Chunks(Select(t, routerId))|
    ensures ps.Some? ==> forall i :: 0 <= i < |ps.value| ==>
              ConstructPacket(t.routerId, Chunks(Select(t, routerId))[i]) == Some(ps.value[i])
    ensures ps.Some? ==> forall i :: 0 <= i < |ps.value| ==>
              |ps.value[i]| == HeaderLen + 20 * |Chunks(Select(t, routerId))[i]|
  {
    var sel := Select(t, routerId);
    ChunksCount(sel);
    ConstructAllChunks(t.routerId, sel);
    ConstructAll(t.routerId, Chunks(sel))
  }

  /** The groups of a list of rows can all be encoded exactly when the sender id and every row can. */
  lemma {:induction false} ConstructAllChunks(senderId: int, rows: seq<(int, RouteEntry)>)
    ensures ConstructAll(senderId, Chunks(rows)).Some? <==> FitsIn(senderId, 2) && AllEncodable(rows)
  {
    var groups := Chunks(rows);
    FlattenEncodable(groups);
    assert ConstructPacket(senderId, groups[0]).Some? ==> FitsIn(senderId, 2);
  }

  /** The rows of a concatenation are encodable exactly when those of every part are. */
  lemma {:induction false} FlattenEncodable(ss: seq<seq<(int, RouteEntry)>>)
    ensures AllEncodable(Flatten(ss)) <==> forall i :: 0 <= i < |ss| ==> AllEncodable(ss[i])
    decreases |ss|
  {
    if |ss| > 0 {
      var rest := Flatten(ss[1..]);
      FlattenEncodable(ss[1..]);
      assert Flatten(ss) == ss[0] + rest;
      assert forall i :: 1 <= i < |ss| ==> ss[i] == ss[1..][i - 1];
      assert AllEncodable(ss[0] + rest) <==> AllEncodable(ss[0]) && AllEncodable(rest) by {
        assert forall j :: 0 <= j < |ss[0]| ==> (ss[0] + rest)[j] == ss[0][j];
        assert forall j :: 0 <= j < |rest| ==> (ss[0] + rest)[|ss[0]| + j] == rest[j];
      }
    }
  }

  /* ---------------------------------------------------------------------- */
  /* Decoding                                                               */
  /* ---------------------------------------------------------------------- */

  /** The entry whose 20 bytes start at `start`. */
  function ReadPacketEntry(b: seq<byte>, start: nat): ResponseEntry
    requires start + EntryLen <= |b|
  {
    ResponseEntry(Be16(b, start), Be32(b, start + 4), Be32(b, start + 16))
  }

  /** The entry's fields are the big-endian values of the byte ranges 0-2, 4-8 and 16-20 of the entry. */
  lemma {:induction false} ReadPacketEntryFields(b: seq<byte>, start: nat)
    requires start + EntryLen <= |b|
    ensures ReadPacketEntry(b, start).afi == FromBigEndian(b[start..start + 2])
    ensures ReadPacketEntry(b, start).targetRouterId == FromBigEndian(b[start + 4..start + 8])
    ensures ReadPacketEntry(b, start).metric == FromBigEndian(b[start + 16..start + EntryLen])
  {
    FixedWidthValues(b, start);
    FixedWidthValues(b, start + 4);
    FixedWidthValues(b, start + 16);
  }

  /** Every complete entry from `start` on; a shorter tail is ignored. */
  function ReadEntries(b: seq<byte>, start: nat): seq<ResponseEntry>
    decreases |b| - start
  {
    if start + EntryLen <= |b| then [ReadPacketEntry(b, start)] + ReadEntries(b, start + EntryLen)
    else []
  }

  /** As many entries are read as whole 20-byte blocks fit after `start`. */
  lemma {:induction false} ReadEntriesLength(b: seq<byte>, start: nat)
    ensures start <= |b| ==> |ReadEntries(b, start)| == (|b| - start) / 20
    ensures start > |b| ==> ReadEntries(b, start) == []
    decreases |b| - start
  {
    if start + EntryLen <= |b| {
      ReadEntriesLength(b, start + EntryLen);
    }
  }

  /** The `j`-th entry read from `start` is the one whose bytes start `20 * j` further on. */
  lemma {:induction false} ReadEntriesIndex(b: seq<byte>, start: nat, j: nat)
    requires j < |ReadEntries(b, start)|
    ensures start + 20 * j + 20 <= |b|
    ensures ReadEntries(b, start)[j] == ReadPacketEntry(b, start + 20 * j)
    decreases j
  {
    if j > 0 {
      ReadEntriesIndex(b, start + EntryLen, j - 1);
    }
  }

  /**
   * Reads a received packet. A buffer of fewer than two bytes has no command
   * or version and cannot be read; a sender field cut short is read from the
   * bytes present.
   */
  function ReadPacket(b: seq<byte>): (p: Option<ResponsePacket>)
    ensures p.None? <==> |b| < 2
    ensures p.Some? ==> p.value.command == b[0] && p.value.version == b[1]
    ensures p.Some? ==> p.value.senderRouterId == SenderField(b)
    ensures p.Some? ==> |p.value.entries| == (if |b| < HeaderLen then 0 else (|b| - HeaderLen) / 20)
    ensures p.Some? ==> forall j :: 0 <= j < |p.value.entries| ==>
              p.value.entries[j] == ReadPacketEntry(b, HeaderLen + 20 * j)
  {
    if |b| < 2 then None
    else
      var es := ReadEntries(b, HeaderLen);
      ReadEntriesLength(b, HeaderLen);
      assert forall j :: 0 <= j < |es| ==> es[j] == ReadPacketEntry(b, HeaderLen + 20 * j) by {
        forall j | 0 <= j < |es| ensures es[j] == ReadPacketEntry(b, HeaderLen + 20 * j) {
          ReadEntriesIndex(b, HeaderLen, j);
        }
      }
      Some(ResponsePacket(b[0], b[1], SenderField(b), es))
  }

  /** The sender id in the header: the bytes 2 and 3, or as many of them as the buffer holds. */
  function SenderField(b: seq<byte>): nat
    requires |b| >= 2
  {
    if |b| >= HeaderLen then Be16(b, 2) else if |b| == 3 then b[2] else 0
  }

  /** The sender field is the big-endian value of the header bytes from 2 up to 4 or the end of the buffer. */
  lemma {:induction false} SenderFieldValue(b: seq<byte>)
    requires |b| >= 2
    ensures SenderField(b) == FromBigEndian(b[2..if |b| < HeaderLen then |b| else HeaderLen])
  {
    if |b| >= HeaderLen {
      FixedWidthValues(b, 2);
    } else if |b| == 3 {
      assert b[2..3][..0] == [];
    }
  }

  /* ---------------------------------------------------------------------- */
  /* Round trip                                                             */
  /* ---------------------------------------------------------------------- */

  /** What a receiver reads for each row sent. */
  function Responses(rows: seq<(int, RouteEntry)>): (es: seq<ResponseEntry>)
    ensures |es| == |rows|
    ensures forall j :: 0 <= j < |rows| ==> es[j] == ResponseEntry(AfInet, rows[j].0, rows[j].1.metric)
  {
    seq(|rows|, j requires 0 <= j < |rows| => ResponseEntry(AfInet, rows[j].0, rows[j].1.metric))
  }

  /** Unfolds the entry reader by one entry. */
  lemma {:induction false} ReadEntriesCons(b: seq<byte>, start: nat)
    requires start + EntryLen <= |b|
    ensures ReadEntries(b, start) == [ReadPacketEntry(b, start)] + ReadEntries(b, start + EntryLen)
  {
  }

  /** The 20 bytes at `i` carry the address family, the row's destination and the row's metric. */
  predicate LaidOutAt(b: seq<byte>, i: nat, row: (int, RouteEntry)) {
    i + EntryLen <= |b| && Be16(b, i) == AfInet && Be32(b, i + 4) == row.0 && Be32(b, i + 16) == row.1.metric
  }

  /** An entry stays readable when bytes are appended after it. */
  lemma {:induction false} LaidOutExtend(b: seq<byte>, rest: seq<byte>, whole: seq<byte>, i: nat, row: (int, RouteEntry))
    requires LaidOutAt(b, i, row) && whole == b + rest
    ensures LaidOutAt(whole, i, row)
  {
    assert forall k :: i <= k < i + EntryLen ==> whole[k] == b[k];
  }

  /** An entry moves by the length of whatever is put in front of it. */
  lemma {:induction false} LaidOutShift(prefix: seq<byte>, b: seq<byte>, whole: seq<byte>, i: nat, at: nat, row: (int, RouteEntry))
    requires LaidOutAt(b, i, row) && whole == prefix + b && at == |prefix| + i
    ensures LaidOutAt(whole, at, row)
  {
    assert forall k :: i <= k < i + EntryLen ==> whole[|prefix| + k] == b[k];
  }

  /** Unfolds the entry encoder by one row. */
  lemma {:induction false} EncodeEntriesCons(rows: seq<(int, RouteEntry)>)
    requires |rows| > 0 && forall j :: 0 <= j < |rows| ==> RowEncodable(rows[j])
    ensures RowEncodable(rows[0])
    ensures EncodeEntries(rows) == EntryBytes(rows[0].0, rows[0].1.metric) + EncodeEntries(rows[1..])
  {
    assert RowEncodable(rows[0]);
  }

  /** The encoding of a non-empty list is an entry carrying the first row, then the encoding of the rest. */
  lemma {:induction false} EncodeEntriesSplit(rows: seq<(int, RouteEntry)>) returns (first: seq<byte>)
    requires |rows| > 0 && forall j :: 0 <= j < |rows| ==> RowEncodable(rows[j])
    ensures |first| == EntryLen && LaidOutAt(first, 0, rows[0])
    ensures EncodeEntries(rows) == first + EncodeEntries(rows[1..])
  {
    EncodeEntriesCons(rows);
    first := EntryBytes(rows[0].0, rows[0].1.metric);
  }

  /** Row `j` is encoded in the 20 bytes at `20 * j`. */
  lemma {:induction false} EncodeEntriesAt(rows: seq<(int, RouteEntry)>, j: nat)
    requires forall j :: 0 <= j < |rows| ==> RowEncodable(rows[j])
    requires j < |rows|
    ensures LaidOutAt(EncodeEntries(rows), 20 * j, rows[j])
    decreases j
  {
    var first := EncodeEntriesSplit(rows);
    var tail := EncodeEntries(rows[1..]);
    var row := rows[j];
    if j == 0 {
      LaidOutExtend(first, tail, EncodeEntries(rows), 0, row);
    } else {
      EncodeEntriesAt(rows[1..], j - 1);
      assert rows[1..][j - 1] == row;
      LaidOutShift(first, tail, EncodeEntries(rows), 20 * (j - 1), 20 * j, row);
    }
  }

  /** Bytes holding one laid-out entry per row from `start` to the end read back as those rows. */
  lemma {:induction false} ReadLaidOut(b: seq<byte>, start: nat, rows: seq<(int, RouteEntry)>)
    requires |b| == start + 20 * |rows|
    requires forall j :: 0 <= j < |rows| ==> LaidOutAt(b, start + 20 * j, rows[j])
    ensures ReadEntries(b, start) == Responses(rows)
  {
    var es := ReadEntries(b, start);
    ReadEntriesLength(b, start);
    forall j | 0 <= j < |rows| ensures es[j] == Responses(rows)[j] {
      ReadEntriesIndex(b, start, j);
      assert LaidOutAt(b, start + 20 * j, rows[j]);
    }
  }

  /** Reading the entries back from where they were encoded gives one response per row, in order. */
  lemma {:induction false} ReadEncodedEntries(prefix: seq<byte>, rows: seq<(int, RouteEntry)>)
    requires forall j :: 0 <= j < |rows| ==> RowEncodable(rows[j])
    ensures ReadEntries(prefix + EncodeEntries(rows), |prefix|) == Responses(rows)
  {
    var body := EncodeEntries(rows);
    forall j | 0 <= j < |rows| ensures LaidOutAt(prefix + body, |prefix| + 20 * j, rows[j]) {
      EncodeEntriesAt(rows, j);
      LaidOutShift(prefix, body, prefix + body, 20 * j, |prefix| + 20 * j, rows[j]);
    }
    ReadLaidOut(prefix + body, |prefix|, rows);
  }

  /** Reading a constructed packet gives back its header and its rows in order. */
  lemma {:induction false} PacketRoundTrip(senderId: int, rows: seq<(int, RouteEntry)>)
    requires ConstructPacket(senderId, rows).Some?
    ensures ReadPacket(ConstructPacket(senderId, rows).value)
            == Some(ResponsePacket(RipPacketCommand, RipVersionNumber, senderId, Responses(rows)))
  {
    var h := PacketHeader(senderId);
    ReadEncodedEntries(h, rows);
  }

  lemma {:induction false} ResponsesAppend(a: seq<(int, RouteEntry)>, b: seq<(int, RouteEntry)>)
    ensures Responses(a + b) == Responses(a) + Responses(b)
  {
    assert forall j :: 0 <= j < |a + b| ==> (a + b)[j] == if j < |a| then a[j] else b[j - |a|];
  }

  /** The entries read from each packet in turn; a packet that cannot be read adds none. */
  function ReadAll(ps: seq<seq<byte>>): seq<ResponseEntry> {
    if |ps| == 0 then []
    else
      var first := match ReadPacket(ps[0]) case Some(p) => p.entries case None => [];
      first + ReadAll(ps[1..])
  }

  /** Reading back the packets built from some groups gives the responses for all their rows. */
  lemma {:induction false} ReadAllConstructed(senderId: int, groups: seq<seq<(int, RouteEntry)>>)
    requires ConstructAll(senderId, groups).Some?
    ensures ReadAll(ConstructAll(senderId, groups).value) == Responses(Flatten(groups))
    decreases |groups|
  {
    if |groups| > 0 {
      var ps := ConstructAll(senderId, groups).value;
      PacketRoundTrip(senderId, groups[0]);
      assert ps[1..] == ConstructAll(senderId, groups[1..]).value;
      ReadAllConstructed(senderId, groups[1..]);
      ResponsesAppend(groups[0], Flatten(groups[1..]));
    }
  }

  /**
   * Every packet built for `routerId` reads back with this router as sender,
   * and the entries of all packets, taken in order, are exactly the advertised
   * routes: nothing lost, nothing repeated.
   */
  lemma {:induction false} ConstructPacketsRoundTrip(t: Table, routerId: int)
    requires Valid(t) && ConstructPackets(t, routerId).Some?
    ensures var ps := ConstructPackets(t, routerId).value;
            forall i :: 0 <= i < |ps| ==> ReadPacket(ps[i]).Some? && ReadPacket(ps[i]).value.senderRouterId == t.routerId
    ensures ReadAll(ConstructPackets(t, routerId).value) == Responses(Select(t, routerId))
  {
    var ps := ConstructPackets(t, routerId).value;
    var groups := Chunks(Select(t, routerId));
    forall i | 0 <= i < |ps|
      ensures ReadPacket(ps[i]).Some? && ReadPacket(ps[i]).value.senderRouterId == t.routerId
    {
      PacketRoundTrip(t.routerId, groups[i]);
    }
    ReadAllConstructed(t.routerId, groups);
  }

  /** Bytes after the last complete entry do not change what `ReadPacket` gives. */
  lemma {:induction false} TrailingFragmentIgnored(b: seq<byte>, tail: seq<byte>)
    requires |b| >= HeaderLen && (|b| - HeaderLen) % 20 == 0 && |tail| < EntryLen
    ensures ReadPacket(b + tail).Some? && ReadPacket(b).Some?
    ensures ReadPacket(b + tail).value.entries == ReadPacket(b).value.entries
    ensures ReadPacket(b + tail) == ReadPacket(b)
  {
    var e1 := ReadPacket(b + tail).value.entries;
    var e2 := ReadPacket(b).value.entries;
    assert |e1| == |e2|;
    forall j | 0 <= j < |e1| ensures e1[j] == e2[j] {
      var s := HeaderLen + 20 * j;
      assert forall k :: s <= k < s + EntryLen ==> (b + tail)[k] == b[k];
    }
  }

  /** A 24-byte buffer holding the header 2, 2, 0 and one entry (family 2, id 1, metric 1). */
  lemma {:induction false} ReadSingleEntryExample()
    ensures var b: seq<byte> := [2, 2, 0, 0] + [0, 2, 0, 0, 0, 0, 0, 1] + Zeros(8) + [0, 0, 0, 1];
            ReadPacket(b) == Some(ResponsePacket(2, 2, 0, [ResponseEntry(2, 1, 1)]))
  {
    var b: seq<byte> := [2, 2, 0, 0] + [0, 2, 0, 0, 0, 0, 0, 1] + Zeros(8) + [0, 0, 0, 1];
    assert |b| == 24;
    assert b[2] == 0 && b[3] == 0 && b[4] == 0 && b[5] == 2;
    assert b[8] == 0 && b[9] == 0 && b[10] == 0 && b[11] == 1;
    assert b[20] == 0 && b[21] == 0 && b[22] == 0 && b[23] == 1;
    ReadEntriesCons(b, HeaderLen);
    assert ReadEntries(b, HeaderLen) == [ResponseEntry(2, 1, 1)];
  }
}
