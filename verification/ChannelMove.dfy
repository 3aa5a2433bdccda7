/** MoveChannel: two bulk position shifts and one write, proved to be "remove from one ordered list,
    insert into another". */
module ChannelMove {
  import opened Basics

  type ChannelId = string
  type ServerId = string

  datatype Kind = Category | Text | Voice | SystemChannel

  datatype Channel = Channel(server: ServerId, kind: Kind, parent: Option<ChannelId>, position: int)

  type Channels = map<ChannelId, Channel>

  datatype Comparison = Above | AtOrAbove

  /** The three scope predicates of shiftPositions. None of them mentions the server. */
  predicate InSqlScope(c: Channel, isCategory: bool, parent: Option<ChannelId>) {
    if isCategory then c.kind.Category?
    else if parent.None? then c.parent.None? && !c.kind.Category?
    else c.parent == parent
  }

  predicate Hits(position: int, op: Comparison, pivot: int) {
    if op.Above? then position > pivot else position >= pivot
  }

  /** shiftPositions: one UPDATE over the whole table. */
  function Shifted(rows: Channels, channel: ChannelId, isCategory: bool, parent: Option<ChannelId>,
                   op: Comparison, pivot: int, delta: int): Channels {
    map id | id in rows ::
      if id != channel && InSqlScope(rows[id], isCategory, parent) && Hits(rows[id].position, op, pivot)
      then rows[id].(position := rows[id].position + delta)
      else rows[id]
  }

  /** The lookups that make MoveChannel report no rows. */
  predicate Movable(rows: Channels, channel: ChannelId, server: ServerId, newParent: Option<ChannelId>) {
    && channel in rows && rows[channel].server == server
    && (newParent.Some? ==> newParent.value in rows && rows[newParent.value].server == server)
  }

  function GapClosed(rows: Channels, channel: ChannelId): Channels
    requires channel in rows
  {
    var c := rows[channel];
    Shifted(rows, channel, c.kind.Category?, c.parent, Above, c.position, -1)
  }

  function Moved(rows: Channels, channel: ChannelId, newParent: Option<ChannelId>, newPosition: int): Channels
    requires channel in rows
  {
    var c := rows[channel];
    var spaced := Shifted(GapClosed(rows, channel), channel, c.kind.Category?, newParent, AtOrAbove, newPosition, 1);
    spaced[channel := spaced[channel].(parent := newParent, position := newPosition)]
  }

  /** Every parent is a channel of the same guild. */
  ghost predicate ParentsAtHome(rows: Channels) {
    forall id :: id in rows && rows[id].parent.Some? ==>
      rows[id].parent.value in rows && rows[rows[id].parent.value].server == rows[id].server
  }

  /** The lookup of the new parent is what keeps guilds apart: a move leaves every parent in its channel's
      guild exactly when the new one passes it. */
  lemma ParentsStayHomeIff(rows: Channels, channel: ChannelId, newParent: Option<ChannelId>, newPosition: int)
    requires ParentsAtHome(rows) && channel in rows
    ensures ParentsAtHome(Moved(rows, channel, newParent, newPosition)) <==>
      Movable(rows, channel, rows[channel].server, newParent)
  {
    MoveKeepsTheRest(rows, channel, newParent, newPosition);
    hide Moved;
  }

  lemma MoveKeepsTheRest(rows: Channels, channel: ChannelId, newParent: Option<ChannelId>, newPosition: int)
    requires channel in rows
    ensures var after := Moved(rows, channel, newParent, newPosition);
      && after.Keys == rows.Keys && after[channel].parent == newParent
      && (forall id :: id in rows ==> after[id].server == rows[id].server)
      && (forall id :: id in rows && id != channel ==> after[id].parent == rows[id].parent)
  {
  }

  class ChannelTable {
    var rows: Channels

    /** One transaction: either the whole move or nothing. */
    method MoveChannel(channel: ChannelId, server: ServerId, newParent: Option<ChannelId>, newPosition: int)
      returns (found: bool)
      modifies this
      ensures found <==> Movable(old(rows), channel, server, newParent)
      ensures rows == if found then Moved(old(rows), channel, newParent, newPosition) else old(rows)
    {
      if channel !in rows || rows[channel].server != server {
        return false;
      }
      var Channel(_, kind, oldParent, oldPosition) := rows[channel];
      if newParent.Some? {
        if newParent.value !in rows || rows[newParent.value].server != server {
          return false;
        }
      }
      var isCategory := kind.Category?;
      rows := Shifted(rows, channel, isCategory, oldParent, Above, oldPosition, -1);
      rows := Shifted(rows, channel, isCategory, newParent, AtOrAbove, newPosition, 1);
      rows := rows[channel := rows[channel].(parent := newParent, position := newPosition)];
      return true;
    }
  }

  // ----- scopes as ordered lists -----

  /** The documented scopes: positions are ordinals within one of these, per guild. */
  datatype Scope = Categories | Uncategorized | Under(parent: ChannelId)

  function ScopeOf(c: Channel): Scope {
    if c.kind.Category? then Categories
    else if c.parent.None? then Uncategorized else Under(c.parent.value)
  }

  predicate Member(rows: Channels, server: ServerId, scope: Scope, id: ChannelId) {
    id in rows && rows[id].server == server && ScopeOf(rows[id]) == scope
  }

  ghost predicate Increasing(rows: Channels, list: seq<ChannelId>) {
    && (forall id :: id in list ==> id in rows)
    && forall i, j :: 0 <= i < j < |list| ==> rows[list[i]].position < rows[list[j]].position
  }

  /** list is the scope in position order, with no two positions equal. */
  ghost predicate Lists(rows: Channels, server: ServerId, scope: Scope, list: seq<ChannelId>) {
    Increasing(rows, list) && forall id :: id in list <==> Member(rows, server, scope, id)
  }

  /** Positions are base, base + 1, ... in list order. */
  ghost predicate Contiguous(rows: Channels, list: seq<ChannelId>, base: int) {
    forall i :: 0 <= i < |list| ==> list[i] in rows && rows[list[i]].position == base + i
  }

  ghost predicate CategoriesUnnested(rows: Channels) {
    forall id :: id in rows && rows[id].kind.Category? ==> rows[id].parent.None?
  }

  function Without(list: seq<ChannelId>, c: ChannelId): seq<ChannelId> {
    if list == [] then [] else if list[0] == c then list[1..] else [list[0]] + Without(list[1..], c)
  }

  function InsertAt(list: seq<ChannelId>, i: nat, c: ChannelId): seq<ChannelId>
    requires i <= |list|
  {
    list[..i] + [c] + list[i..]
  }

  /** How many channels of the list sit below a position. */
  function CountBelow(rows: Channels, list: seq<ChannelId>, position: int): (n: nat)
    requires forall id :: id in list ==> id in rows
    ensures n <= |list|
  {
    if list == [] then 0
    else (if rows[list[0]].position < position then 1 else 0) + CountBelow(rows, list[1..], position)
  }

  ghost predicate WithoutAt(list: seq<ChannelId>, c: ChannelId, k: nat) {
    k < |list| && list[k] == c && Without(list, c) == list[..k] + list[k + 1..]
  }

  lemma {:induction false} WithoutSplits(list: seq<ChannelId>, c: ChannelId) returns (k: nat)
    requires c in list
    ensures WithoutAt(list, c, k)
  {
    if list[0] == c {
      k := 0;
    } else {
      var j := WithoutSplits(list[1..], c);
      k := j + 1;
      assert list[..k] + list[k + 1..] == [list[0]] + (list[1..][..j] + list[1..][j + 1..]);
    }
  }

  /** In an ordered list the channels below a position are its first ones. */
  lemma {:induction false} CountBelowSplits(rows: Channels, list: seq<ChannelId>, position: int)
    requires Increasing(rows, list)
    ensures var n := CountBelow(rows, list, position);
      && (forall i :: 0 <= i < n ==> rows[list[i]].position < position)
      && (forall i :: n <= i < |list| ==> rows[list[i]].position >= position)
  {
    if list != [] {
      CountBelowSplits(rows, list[1..], position);
      if rows[list[0]].position < position {
        assert forall i :: 0 < i < |list| ==> list[i] == list[1..][i - 1];
      } else {
        AllAbove(rows, list[1..], position);
      }
    }
  }

  lemma {:induction false} AllAbove(rows: Channels, list: seq<ChannelId>, position: int)
    requires forall id :: id in list ==> id in rows
    requires forall i :: 0 <= i < |list| ==> rows[list[i]].position >= position
    ensures CountBelow(rows, list, position) == 0
  {
    if list != [] {
      AllAbove(rows, list[1..], position);
    }
  }

  // ----- the refinement -----

  function Destination(c: Channel, newParent: Option<ChannelId>): Scope {
    ScopeOf(c.(parent := newParent))
  }

  /** With unnested categories the SQL predicates select exactly a scope, of every guild. */
  lemma SqlScopeIsScope(rows: Channels, id: ChannelId, c: Channel)
    requires CategoriesUnnested(rows) && id in rows && (c.kind.Category? ==> c.parent.None?)
    ensures InSqlScope(rows[id], c.kind.Category?, c.parent) <==> ScopeOf(rows[id]) == ScopeOf(c)
  {
  }

  /** Without any assumption on nesting: besides its scope, the shift for a category's children selects
      the categories nested under it. */
  lemma SqlScopeIff(r: Channel, c: Channel)
    ensures InSqlScope(r, c.kind.Category?, c.parent) <==>
      || ScopeOf(r) == ScopeOf(c)
      || (!c.kind.Category? && c.parent.Some? && r.kind.Category? && r.parent == c.parent)
  {
  }

  /** Where a channel other than the moved one ends up after each of the two shifts. The one case not
      here, a category while the moved channel is none, is CategoryPosition below. */
  lemma SiblingPositions(rows: Channels, channel: ChannelId, newParent: Option<ChannelId>, newPosition: int,
                         id: ChannelId)
    requires channel in rows && id in rows && id != channel
    requires rows[id].kind.Category? ==> rows[channel].kind.Category?
    ensures var c, r := rows[channel], rows[id];
      var closed, moved := GapClosed(rows, channel), Moved(rows, channel, newParent, newPosition);
      && id in closed && id in moved
      && closed[id] == r.(position :=
           if ScopeOf(r) == ScopeOf(c) && r.position > c.position then r.position - 1 else r.position)
      && moved[id] == closed[id].(position :=
           if ScopeOf(r) == Destination(c, newParent) && closed[id].position >= newPosition
           then closed[id].position + 1 else closed[id].position)
  {
    var c := rows[channel];
    SqlScopeIff(rows[id], c);
    SqlScopeIff(rows[id], c.(parent := newParent));
  }

  lemma DestinationKind(r: Channel, c: Channel, newParent: Option<ChannelId>)
    ensures ScopeOf(r) == Destination(c, newParent) ==> r.kind.Category? == c.kind.Category?
  {
  }

  lemma RemovedPosition(rows: Channels, server: ServerId, channel: ChannelId, list: seq<ChannelId>, k: nat, j: nat)
    requires channel in rows
    requires Lists(rows, server, ScopeOf(rows[channel]), list)
    requires k < |list| && list[k] == channel && j < |list| && j != k
    ensures var closed := GapClosed(rows, channel);
      && list[j] in closed && list[j] != channel
      && closed[list[j]].position == rows[list[j]].position - if j < k then 0 else 1
  {
    hide GapClosed, Moved;
    assert list[j] in list && list[k] in list;
    assert rows[list[j]].position != rows[list[k]].position;
    SiblingPositions(rows, channel, rows[channel].parent, 0, list[j]);
  }

  lemma RemovedMembers(list: seq<ChannelId>, channel: ChannelId, k: nat)
    requires WithoutAt(list, channel, k) && forall j :: 0 <= j < |list| && list[j] == channel ==> j == k
    ensures forall id :: id in Without(list, channel) <==> id in list && id != channel
  {
    hide Without;
    var rest := Without(list, channel);
    forall id | id in list && id != channel ensures id in rest {
      var j :| 0 <= j < |list| && list[j] == id;
      assert rest[if j < k then j else j - 1] == id;
    }
  }

  /** Taking the channel out of its scope closes its gap and keeps the others' order. */
  lemma RemovalKeepsOrder(rows: Channels, server: ServerId, channel: ChannelId, list: seq<ChannelId>, k: nat)
    requires channel in rows && rows[channel].server == server
    requires Lists(rows, server, ScopeOf(rows[channel]), list) && WithoutAt(list, channel, k)
    ensures var rest, closed := Without(list, channel), GapClosed(rows, channel);
      && Increasing(closed, rest)
      && (forall id :: id in rest <==> id in list && id != channel)
      && (forall base :: Contiguous(rows, list, base) ==> Contiguous(closed, rest, base))
  {
    hide Without, GapClosed;
    var rest, closed := Without(list, channel), GapClosed(rows, channel);
    RemovedMembers(list, channel, k);
    forall i | 0 <= i < |rest| ensures rest[i] in closed && rest[i] == list[if i < k then i else i + 1]
      && closed[rest[i]].position == rows[list[if i < k then i else i + 1]].position - if i < k then 0 else 1
    {
      RemovedPosition(rows, server, channel, list, k, if i < k then i else i + 1);
    }
    hide Lists;
    ClosedGapKeepsOrder(rows, closed, list, rest, k);
  }

  lemma ClosedGapKeepsOrder(rows: Channels, closed: Channels, list: seq<ChannelId>, rest: seq<ChannelId>, k: nat)
    requires Increasing(rows, list) && k < |list| == |rest| + 1
    requires forall i :: 0 <= i < |rest| ==>
      && rest[i] in closed && rest[i] == list[if i < k then i else i + 1]
      && closed[rest[i]].position == rows[list[if i < k then i else i + 1]].position - if i < k then 0 else 1
    ensures Increasing(closed, rest)
    ensures forall base :: Contiguous(rows, list, base) ==> Contiguous(closed, rest, base)
  {
    forall i, j | 0 <= i < j < |rest| ensures closed[rest[i]].position < closed[rest[j]].position {
      var x, y := if i < k then i else i + 1, if j < k then j else j + 1;
      assert rows[list[x]].position < rows[list[y]].position;
      if i < k <= j {
        assert i < k < y && rows[list[i]].position < rows[list[k]].position < rows[list[y]].position;
      }
    }
  }

  /** The first shift does not touch the other lists of channels that are not categories. */
  lemma OtherScopesStay(rows: Channels, server: ServerId, channel: ChannelId, scope: Scope, list: seq<ChannelId>)
    requires channel in rows && Lists(rows, server, scope, list)
    requires scope != ScopeOf(rows[channel]) && scope != Categories
    ensures Increasing(GapClosed(rows, channel), list)
    ensures forall base :: Contiguous(rows, list, base) ==> Contiguous(GapClosed(rows, channel), list, base)
  {
    forall id | id in list ensures id in GapClosed(rows, channel) && GapClosed(rows, channel)[id] == rows[id] {
      SiblingPositions(rows, channel, rows[channel].parent, 0, id);
    }
  }

  /** After making room for it at newPosition, the channel sits behind the n channels below. */
  lemma InsertedPositions(rows: Channels, channel: ChannelId, newParent: Option<ChannelId>, newPosition: int,
                          rest: seq<ChannelId>, n: nat, i: nat)
    requires channel in rows && channel !in rest
    requires Increasing(GapClosed(rows, channel), rest)
    requires forall id :: id in rest ==> id in rows && ScopeOf(rows[id]) == Destination(rows[channel], newParent)
    requires n == CountBelow(GapClosed(rows, channel), rest, newPosition) && i <= |rest|
    ensures var closed, moved := GapClosed(rows, channel), Moved(rows, channel, newParent, newPosition);
      var id := InsertAt(rest, n, channel)[i];
      && id in moved && (i != n ==> rest[if i < n then i else i - 1] in closed)
      && (i < n ==> moved[id].position == closed[rest[i]].position < newPosition)
      && (i == n ==> moved[id].position == newPosition)
      && (i > n ==> moved[id].position == closed[rest[i - 1]].position + 1 > newPosition)
  {
    hide GapClosed, CountBelow, Moved, Destination, ScopeOf, Increasing;
    if i == n {
      MovedTo(rows, channel, newParent, newPosition);
    } else {
      InsertedSibling(rows, channel, newParent, newPosition, rest, n, if i < n then i else i - 1);
    }
  }

  lemma MovedTo(rows: Channels, channel: ChannelId, newParent: Option<ChannelId>, newPosition: int)
    requires channel in rows
    ensures var moved := Moved(rows, channel, newParent, newPosition);
      channel in moved && moved[channel].position == newPosition
  {
  }

  lemma InsertedSibling(rows: Channels, channel: ChannelId, newParent: Option<ChannelId>, newPosition: int,
                        rest: seq<ChannelId>, n: nat, j: nat)
    requires channel in rows && channel !in rest && j < |rest|
    requires Increasing(GapClosed(rows, channel), rest)
    requires forall id :: id in rest ==> id in rows && ScopeOf(rows[id]) == Destination(rows[channel], newParent)
    requires n == CountBelow(GapClosed(rows, channel), rest, newPosition)
    ensures var closed, moved := GapClosed(rows, channel), Moved(rows, channel, newParent, newPosition);
      && rest[j] in closed && rest[j] in moved
      && (if j < n then moved[rest[j]].position == closed[rest[j]].position < newPosition
          else moved[rest[j]].position == closed[rest[j]].position + 1 > newPosition)
  {
    hide GapClosed, CountBelow, Moved, Destination, ScopeOf;
    CountBelowSplits(GapClosed(rows, channel), rest, newPosition);
    assert rest[j] in rest;
    assert rows[rest[j]].kind.Category? ==> rows[channel].kind.Category? by {
      DestinationKind(rows[rest[j]], rows[channel], newParent);
    }
    SiblingPositions(rows, channel, newParent, newPosition, rest[j]);
  }

  /** Making room and writing the channel inserts it after the channels below the new position. */
  lemma InsertionKeepsOrder(rows: Channels, channel: ChannelId, newParent: Option<ChannelId>, newPosition: int,
                            rest: seq<ChannelId>)
    requires channel in rows && channel !in rest
    requires Increasing(GapClosed(rows, channel), rest)
    requires forall id :: id in rest ==> id in rows && ScopeOf(rows[id]) == Destination(rows[channel], newParent)
    ensures var closed, moved := GapClosed(rows, channel), Moved(rows, channel, newParent, newPosition);
      var list := InsertAt(rest, CountBelow(closed, rest, newPosition), channel);
      && Increasing(moved, list)
      && forall base :: Contiguous(closed, rest, base) ==>
           (Contiguous(moved, list, base) <==> base <= newPosition <= base + |rest|)
  {
    hide GapClosed, Moved, CountBelow;
    var closed, moved := GapClosed(rows, channel), Moved(rows, channel, newParent, newPosition);
    var n := CountBelow(closed, rest, newPosition);
    var list := InsertAt(rest, n, channel);
    forall i, j | 0 <= i < j < |list|
      ensures list[i] in moved && list[j] in moved && moved[list[i]].position < moved[list[j]].position
    {
      InsertedPositions(rows, channel, newParent, newPosition, rest, n, i);
      InsertedPositions(rows, channel, newParent, newPosition, rest, n, j);
    }
    forall i | 0 <= i < |list| ensures list[i] in moved {
      InsertedPositions(rows, channel, newParent, newPosition, rest, n, i);
    }
    forall base | Contiguous(closed, rest, base)
      ensures Contiguous(moved, list, base) <==> base <= newPosition <= base + |rest|
    {
      InsertedPositions(rows, channel, newParent, newPosition, rest, n, n);
      if base <= newPosition <= base + |rest| {
        ContiguousCount(closed, rest, base, newPosition);
        forall i | 0 <= i < |list| ensures moved[list[i]].position == base + i {
          InsertedPositions(rows, channel, newParent, newPosition, rest, n, i);
        }
      }
    }
  }

  lemma ContiguousCount(rows: Channels, list: seq<ChannelId>, base: int, position: int)
    requires Increasing(rows, list) && Contiguous(rows, list, base) && base <= position <= base + |list|
    ensures CountBelow(rows, list, position) == position - base
  {
    CountBelowSplits(rows, list, position);
    var n := CountBelow(rows, list, position);
    if n < |list| {
      assert rows[list[n]].position == base + n;
    }
    if n > 0 {
      assert rows[list[n - 1]].position == base + n - 1;
    }
  }

  lemma {:induction false} WithoutAbsent(list: seq<ChannelId>, c: ChannelId)
    requires c !in list
    ensures Without(list, c) == list
  {
    if list != [] {
      WithoutAbsent(list[1..], c);
    }
  }

  /** A move changes neither guild nor scope of any channel but the moved one. */
  lemma MovedMembers(rows: Channels, channel: ChannelId, newParent: Option<ChannelId>, newPosition: int, id: ChannelId)
    requires channel in rows
    ensures var moved := Moved(rows, channel, newParent, newPosition);
      && (id in moved <==> id in rows) && channel in moved
      && (id in rows && id != channel ==>
            moved[id].server == rows[id].server && ScopeOf(moved[id]) == ScopeOf(rows[id]))
      && moved[channel].server == rows[channel].server
      && ScopeOf(moved[channel]) == Destination(rows[channel], newParent)
  {
  }

  /** The list a move leaves in the destination scope. */
  function Arrived(rows: Channels, channel: ChannelId, newPosition: int, dst: seq<ChannelId>): seq<ChannelId>
    requires channel in rows && forall id :: id in Without(dst, channel) ==> id in GapClosed(rows, channel)
  {
    var rest := Without(dst, channel);
    InsertAt(rest, CountBelow(GapClosed(rows, channel), rest, newPosition), channel)
  }

  /** The destination list without the channel, in order, before room is made. */
  lemma DestinationCleared(rows: Channels, server: ServerId, channel: ChannelId, newParent: Option<ChannelId>,
                           dst: seq<ChannelId>)
    requires channel in rows && rows[channel].server == server
    requires Lists(rows, server, Destination(rows[channel], newParent), dst)
    ensures var rest, closed := Without(dst, channel), GapClosed(rows, channel);
      && Increasing(closed, rest) && (forall id :: id in rest <==> id in dst && id != channel)
      && forall base :: Contiguous(rows, dst, base) ==> Contiguous(closed, rest, base)
  {
    hide Without, GapClosed;
    var to := Destination(rows[channel], newParent);
    if to == ScopeOf(rows[channel]) {
      var k := WithoutSplits(dst, channel);
      RemovalKeepsOrder(rows, server, channel, dst, k);
    } else {
      WithoutAbsent(dst, channel);
      OtherScopesStay(rows, server, channel, to, dst);
    }
  }

  /** MoveChannel within or across scopes of a guild: the destination list, without the channel if it
      was there, gains it right after the channels below the target position; and it stays contiguous
      exactly when the target is at most the number of other siblings past its base. Rows of other
      guilds play no part. */
  lemma MoveInsertsIntoDestination(rows: Channels, server: ServerId, channel: ChannelId, newParent: Option<ChannelId>,
                                   newPosition: int, dst: seq<ChannelId>)
    requires Movable(rows, channel, server, newParent)
    requires Lists(rows, server, Destination(rows[channel], newParent), dst)
    ensures var moved, rest := Moved(rows, channel, newParent, newPosition), Without(dst, channel);
      && (forall id :: id in rest ==> id in GapClosed(rows, channel))
      && Lists(moved, server, Destination(rows[channel], newParent), Arrived(rows, channel, newPosition, dst))
      && forall base :: Contiguous(rows, dst, base) ==>
           (Contiguous(moved, Arrived(rows, channel, newPosition, dst), base) <==> base <= newPosition <= base + |rest|)
  {
    hide Without, CountBelow, GapClosed, Moved;
    var to, rest := Destination(rows[channel], newParent), Without(dst, channel);
    var moved := Moved(rows, channel, newParent, newPosition);
    DestinationCleared(rows, server, channel, newParent, dst);
    InsertionKeepsOrder(rows, channel, newParent, newPosition, rest);
    var list := Arrived(rows, channel, newPosition, dst);
    forall id ensures id in list <==> Member(moved, server, to, id) {
      MovedMembers(rows, channel, newParent, newPosition, id);
      assert id in list <==> id in rest || id == channel;
    }
  }

  /** Across scopes the source list loses just the channel and stays contiguous if it was. */
  lemma MoveRemovesFromSource(rows: Channels, server: ServerId, channel: ChannelId, newParent: Option<ChannelId>,
                              newPosition: int, src: seq<ChannelId>)
    requires Movable(rows, channel, server, newParent)
    requires Lists(rows, server, ScopeOf(rows[channel]), src)
    requires ScopeOf(rows[channel]) != Destination(rows[channel], newParent)
    ensures var moved, rest := Moved(rows, channel, newParent, newPosition), Without(src, channel);
      && Lists(moved, server, ScopeOf(rows[channel]), rest)
      && forall base :: Contiguous(rows, src, base) ==> Contiguous(moved, rest, base)
  {
    hide Without, GapClosed, Moved;
    var from, rest := ScopeOf(rows[channel]), Without(src, channel);
    var moved := Moved(rows, channel, newParent, newPosition);
    var k := WithoutSplits(src, channel);
    RemovalKeepsOrder(rows, server, channel, src, k);
    forall id | id in rest ensures id in moved && moved[id] == GapClosed(rows, channel)[id] {
      SiblingPositions(rows, channel, newParent, newPosition, id);
    }
    forall id ensures id in rest <==> Member(moved, server, from, id) {
      MovedMembers(rows, channel, newParent, newPosition, id);
    }
  }

  /** Rows outside both scopes, in any guild, stay untouched; of categories only those that are nested
      may move. */
  lemma MoveLeavesOtherScopes(rows: Channels, server: ServerId, channel: ChannelId, newParent: Option<ChannelId>,
                              newPosition: int, id: ChannelId)
    requires Movable(rows, channel, server, newParent) && id in rows
    requires rows[id].kind.Category? ==> rows[id].parent.None?
    requires ScopeOf(rows[id]) !in {ScopeOf(rows[channel]), Destination(rows[channel], newParent)}
    ensures var moved := Moved(rows, channel, newParent, newPosition); id in moved && moved[id] == rows[id]
  {
    var c := rows[channel];
    SqlScopeIff(rows[id], c);
    SqlScopeIff(rows[id], c.(parent := newParent));
  }

  /** Nesting: a move keeps categories parentless exactly when it gives no category a parent. The move
      handler lets an admin do that although createChannel refuses it. */
  lemma MoveNestsCategoryIff(rows: Channels, channel: ChannelId, newParent: Option<ChannelId>, newPosition: int)
    requires CategoriesUnnested(rows) && channel in rows
    ensures CategoriesUnnested(Moved(rows, channel, newParent, newPosition)) <==>
      !(rows[channel].kind.Category? && newParent.Some?)
  {
    var moved := Moved(rows, channel, newParent, newPosition);
    assert moved[channel].parent == newParent && moved[channel].kind == rows[channel].kind;
    assert forall id :: id in rows && id != channel ==>
      moved[id].kind == rows[id].kind && moved[id].parent == rows[id].parent;
  }

  // ----- other guilds -----

  ghost predicate DistinctPositions(rows: Channels, server: ServerId, scope: Scope) {
    forall a, b :: Member(rows, server, scope, a) && Member(rows, server, scope, b) && a != b ==>
      rows[a].position != rows[b].position
  }

  ghost predicate Occupied(rows: Channels, server: ServerId, scope: Scope, position: int) {
    exists id :: Member(rows, server, scope, id) && rows[id].position == position
  }

  /** Where both shifts take a position, in a scope that is the move's source, its destination, or both. */
  function ShiftedPosition(position: int, gapToo: bool, gap: int, roomToo: bool, room: int): int {
    var closed := if gapToo && position > gap then position - 1 else position;
    if roomToo && closed >= room then closed + 1 else closed
  }

  /** The same for a scope of any guild but the moved channel's. */
  function Renumbered(rows: Channels, channel: ChannelId, newParent: Option<ChannelId>, newPosition: int,
                      scope: Scope, position: int): int
    requires channel in rows
  {
    var c := rows[channel];
    ShiftedPosition(position, scope == ScopeOf(c), c.position, scope == Destination(c, newParent), newPosition)
  }

  lemma ForeignPosition(rows: Channels, channel: ChannelId, newParent: Option<ChannelId>, newPosition: int,
                        other: ServerId, scope: Scope, id: ChannelId)
    requires channel in rows && other != rows[channel].server && (scope.Categories? ==> rows[channel].kind.Category?)
    ensures var moved := Moved(rows, channel, newParent, newPosition);
      && (Member(moved, other, scope, id) <==> Member(rows, other, scope, id))
      && (Member(rows, other, scope, id) ==>
            && id in moved
            && moved[id].position == Renumbered(rows, channel, newParent, newPosition, scope, rows[id].position))
  {
    MovedMembers(rows, channel, newParent, newPosition, id);
    if Member(rows, other, scope, id) {
      SiblingPositions(rows, channel, newParent, newPosition, id);
    }
  }

  /** Only the two positions at the gap are ever merged. */
  lemma MergedIff(rows: Channels, channel: ChannelId, newParent: Option<ChannelId>, newPosition: int, scope: Scope,
                  x: int, y: int)
    requires channel in rows && x < y
    ensures Renumbered(rows, channel, newParent, newPosition, scope, x)
         == Renumbered(rows, channel, newParent, newPosition, scope, y)
      <==> scope == ScopeOf(rows[channel]) && x == rows[channel].position && y == x + 1
  {
  }

  /** The shifts have no server filter, so they also run over every other guild's scopes of the same
      name. There nothing is removed, and closing the "gap" merges the old position with the next:
      another guild's positions stay distinct exactly when the scope is not the source, or does not use
      both. (Categories, when the moved channel is none, are in NestedCategoriesStayDistinctIff.) */
  lemma ForeignGuildStaysDistinctIff(rows: Channels, channel: ChannelId, newParent: Option<ChannelId>,
                                     newPosition: int, other: ServerId, scope: Scope)
    requires channel in rows && other != rows[channel].server && (scope.Categories? ==> rows[channel].kind.Category?)
    requires DistinctPositions(rows, other, scope)
    ensures var p := rows[channel].position;
      DistinctPositions(Moved(rows, channel, newParent, newPosition), other, scope) <==>
        !(scope == ScopeOf(rows[channel]) && Occupied(rows, other, scope, p) && Occupied(rows, other, scope, p + 1))
  {
    hide Moved, GapClosed, ScopeOf, Destination, Renumbered, Member;
    var p, moved := rows[channel].position, Moved(rows, channel, newParent, newPosition);
    forall id ensures Member(moved, other, scope, id) <==> Member(rows, other, scope, id)
      ensures Member(rows, other, scope, id) ==>
        && id in rows && id in moved
        && moved[id].position == Renumbered(rows, channel, newParent, newPosition, scope, rows[id].position)
    {
      ForeignPosition(rows, channel, newParent, newPosition, other, scope, id);
      assert Member(rows, other, scope, id) ==> id in rows by { MembersAreRows(rows, other, scope, id); }
    }
    if scope == ScopeOf(rows[channel]) && Occupied(rows, other, scope, p) && Occupied(rows, other, scope, p + 1) {
      var a :| Member(rows, other, scope, a) && rows[a].position == p;
      var b :| Member(rows, other, scope, b) && rows[b].position == p + 1;
      MergedIff(rows, channel, newParent, newPosition, scope, p, p + 1);
    } else if !DistinctPositions(moved, other, scope) {
      var a, b :| Member(moved, other, scope, a) && Member(moved, other, scope, b) && a != b
        && moved[a].position == moved[b].position;
      var (lo, hi) := if rows[a].position < rows[b].position then (a, b) else (b, a);
      MergedIff(rows, channel, newParent, newPosition, scope, rows[lo].position, rows[hi].position);
    }
  }

  lemma MembersAreRows(rows: Channels, server: ServerId, scope: Scope, id: ChannelId)
    ensures Member(rows, server, scope, id) ==> id in rows
  {
  }

  /** Where a foreign list begins once the gap is closed. */
  function ClosedBase(base: int, gapToo: bool, gap: int): int { if gapToo && gap < base then base - 1 else base }

  /** The documented contiguity of another guild's list survives exactly when neither shift cuts the
      list: the source position is not that of any but its last channel, and the target is not above
      its first channel's position and at most its last one's. It may then still be renumbered as a
      whole. */
  lemma ForeignListStaysContiguousIff(rows: Channels, channel: ChannelId, newParent: Option<ChannelId>,
                                      newPosition: int, other: ServerId, scope: Scope, list: seq<ChannelId>, base: int)
    requires channel in rows && other != rows[channel].server && (scope.Categories? ==> rows[channel].kind.Category?)
    requires Lists(rows, other, scope, list) && Contiguous(rows, list, base) && list != []
    ensures var c, moved := rows[channel], Moved(rows, channel, newParent, newPosition);
      var low := ClosedBase(base, scope == ScopeOf(c), c.position);
      var gapCuts := scope == ScopeOf(c) && base <= c.position < base + |list| - 1;
      var roomCuts := scope == Destination(c, newParent) && low < newPosition < low + |list|;
      && ((exists b :: Contiguous(moved, list, b)) <==> !gapCuts && !roomCuts)
      && (!gapCuts && !roomCuts ==>
            Contiguous(moved, list, if scope == Destination(c, newParent) && low >= newPosition then low + 1 else low))
  {
    var c, moved := rows[channel], Moved(rows, channel, newParent, newPosition);
    var gapToo, roomToo := scope == ScopeOf(c), scope == Destination(c, newParent);
    forall i | 0 <= i < |list|
      ensures list[i] in moved
      ensures moved[list[i]].position == ShiftedPosition(base + i, gapToo, c.position, roomToo, newPosition)
    {
      assert list[i] in list;
      ForeignPosition(rows, channel, newParent, newPosition, other, scope, list[i]);
    }
    hide Moved, Lists, ScopeOf, Destination;
    CutIff(moved, list, base, gapToo, c.position, roomToo, newPosition);
  }

  lemma CutIff(moved: Channels, list: seq<ChannelId>, base: int, gapToo: bool, gap: int, roomToo: bool, room: int)
    requires list != [] && forall i :: 0 <= i < |list| ==>
      list[i] in moved && moved[list[i]].position == ShiftedPosition(base + i, gapToo, gap, roomToo, room)
    ensures var low := ClosedBase(base, gapToo, gap);
      var cut := (gapToo && base <= gap < base + |list| - 1) || (roomToo && low < room < low + |list|);
      && ((exists b :: Contiguous(moved, list, b)) <==> !cut)
      && (!cut ==> Contiguous(moved, list, if roomToo && low >= room then low + 1 else low))
  {
    var low := ClosedBase(base, gapToo, gap);
    if gapToo && base <= gap < base + |list| - 1 {
      var k := gap - base;
      assert moved[list[k]].position == moved[list[k + 1]].position;
    } else if roomToo && low < room < low + |list| {
      var k := room - low;
      assert moved[list[k]].position == moved[list[k - 1]].position + 2;
    } else {
      assert Contiguous(moved, list, if roomToo && low >= room then low + 1 else low);
    }
  }

  // ----- nested categories -----

  /** How far a category moves while the channel moved is none: one down if nested under the old parent
      above the gap, one up if nested under the new parent at or above the target after that. */
  function Drift(rows: Channels, channel: ChannelId, newParent: Option<ChannelId>, newPosition: int, r: Channel): int
    requires channel in rows
  {
    var c := rows[channel];
    var down := if c.parent.Some? && r.parent == c.parent && r.position > c.position then -1 else 0;
    down + if newParent.Some? && r.parent == newParent && r.position + down >= newPosition then 1 else 0
  }

  lemma CategoryPosition(rows: Channels, channel: ChannelId, newParent: Option<ChannelId>, newPosition: int,
                         id: ChannelId)
    requires channel in rows && !rows[channel].kind.Category? && id in rows && rows[id].kind.Category?
    ensures var moved := Moved(rows, channel, newParent, newPosition);
      id in moved && moved[id].position == rows[id].position + Drift(rows, channel, newParent, newPosition, rows[id])
  {
  }

  /** Two categories of a guild whose drifts close the distance between them. */
  predicate Meet(rows: Channels, channel: ChannelId, newParent: Option<ChannelId>, newPosition: int, server: ServerId,
                 a: ChannelId, b: ChannelId)
    requires channel in rows
  {
    && Member(rows, server, Categories, a) && Member(rows, server, Categories, b) && a != b
    && rows[b].position - rows[a].position
       == Drift(rows, channel, newParent, newPosition, rows[a]) - Drift(rows, channel, newParent, newPosition, rows[b])
  }

  /** Moving a channel that is no category, to any parent or none, drags nested categories along the
      category list of every guild: category positions are distinct afterwards exactly when no two
      categories meet. */
  lemma NestedCategoriesStayDistinctIff(rows: Channels, channel: ChannelId, newParent: Option<ChannelId>,
                                        newPosition: int, server: ServerId)
    requires channel in rows && !rows[channel].kind.Category?
    ensures DistinctPositions(Moved(rows, channel, newParent, newPosition), server, Categories) <==>
      forall a, b :: !Meet(rows, channel, newParent, newPosition, server, a, b)
  {
    var moved := Moved(rows, channel, newParent, newPosition);
    forall id ensures Member(moved, server, Categories, id) <==> Member(rows, server, Categories, id)
      ensures Member(rows, server, Categories, id) ==>
        id in moved && moved[id].position == rows[id].position + Drift(rows, channel, newParent, newPosition, rows[id])
    {
      MovedMembers(rows, channel, newParent, newPosition, id);
      if Member(rows, server, Categories, id) {
        CategoryPosition(rows, channel, newParent, newPosition, id);
      }
    }
    hide Moved, Member, Drift;
    if !DistinctPositions(moved, server, Categories) {
      var a, b :| Member(moved, server, Categories, a) && Member(moved, server, Categories, b) && a != b
        && moved[a].position == moved[b].position;
      assert Meet(rows, channel, newParent, newPosition, server, a, b);
    } else if a, b :| Meet(rows, channel, newParent, newPosition, server, a, b) {
      assert false;
    }
  }

  /** With one nested category a move into its parent already makes two distinct positions collide. */
  lemma MoveIntoParentCollides(q: ChannelId, n: ChannelId, u: ChannelId, c: ChannelId, server: ServerId)
    requires q != n && q != u && q != c && n != u && n != c && u != c
    ensures var rows := map[q := Channel(server, Category, None, 0), n := Channel(server, Category, Some(q), 1),
                            u := Channel(server, Category, None, 2), c := Channel(server, Text, None, 0)];
      && DistinctPositions(rows, server, Categories)
      && !DistinctPositions(Moved(rows, c, Some(q), 0), server, Categories)
  {
    hide Moved;
    var rows := map[q := Channel(server, Category, None, 0), n := Channel(server, Category, Some(q), 1),
                    u := Channel(server, Category, None, 2), c := Channel(server, Text, None, 0)];
    NestedCategoriesStayDistinctIff(rows, c, Some(q), 0, server);
    assert Meet(rows, c, Some(q), 0, server, n, u);
  }
}
