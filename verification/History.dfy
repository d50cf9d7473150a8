/** The command history: items indexed by ids that are never reused, searches over them, and the
    history file. */
module CommandHistory {
  import opened Wrappers
  import opened Numerals
  import opened Sequences

  type ItemId = int

  /** A point in time: whole seconds since the epoch, rounded down, and nanoseconds on top. */
  datatype Timestamp = Timestamp(seconds: i64, nanoseconds: nat)

  datatype Item = Item(id: ItemId, commandLine: string, timestamp: Option<Timestamp>, dirty: bool)

  datatype State = State(items: seq<ItemId>, idMap: map<ItemId, Item>, nextId: ItemId)

  const EMPTY := State([], map[], 0)

  // ----- The index -----

  predicate Increasing(ids: seq<ItemId>) {
    forall i, j :: 0 <= i < j < |ids| ==> ids[i] < ids[j]
  }

  /** The ids are in increasing order, they are the keys of the map, and all were given out. */
  ghost predicate Indexed(s: State) {
    && Increasing(s.items)
    && (forall id :: id in s.items <==> id in s.idMap)
    && (forall id :: id in s.items ==> id < s.nextId)
  }

  /** Every item knows its own id. */
  predicate SelfNamed(s: State) {
    forall id :: id in s.idMap ==> s.idMap[id].id == id
  }

  function WithoutId(ids: seq<ItemId>, id: ItemId): seq<ItemId> {
    if ids == [] then []
    else if ids[0] == id then WithoutId(ids[1..], id)
    else [ids[0]] + WithoutId(ids[1..], id)
  }

  datatype Op = Add(item: Item) | RemoveNth(n: nat) | Delete(id: ItemId) | Clear | Update(id: ItemId, item: Item)

  function Apply(s: State, op: Op): State {
    match op
    case Add(item) =>
      State(s.items + [s.nextId], s.idMap[s.nextId := item.(id := s.nextId)], s.nextId + 1)
    case RemoveNth(n) =>
      if n < |s.items|
      then s.(items := s.items[..n] + s.items[n + 1..], idMap := s.idMap - {s.items[n]})
      else s
    case Delete(id) => s.(items := WithoutId(s.items, id), idMap := s.idMap - {id})
    case Clear => State([], map[], s.nextId)
    case Update(id, item) => if id in s.idMap then s.(idMap := s.idMap[id := item]) else s
  }

  function Run(s: State, ops: seq<Op>): State
    decreases |ops|
  {
    if ops == [] then s else Run(Apply(s, ops[0]), ops[1..])
  }

  lemma {:induction false} WithoutIdMembers(ids: seq<ItemId>, id: ItemId)
    ensures forall x :: x in WithoutId(ids, id) <==> x in ids && x != id
  {
    if ids != [] {
      assert forall x :: x in ids <==> x == ids[0] || x in ids[1..];
      WithoutIdMembers(ids[1..], id);
    }
  }

  lemma IncreasingCons(first: ItemId, rest: seq<ItemId>)
    requires Increasing(rest) && forall x :: x in rest ==> first < x
    ensures Increasing([first] + rest)
  {
    assert forall j :: 0 <= j < |rest| ==> rest[j] in rest;
  }

  lemma {:induction false} WithoutIdIs(ids: seq<ItemId>, id: ItemId)
    requires Increasing(ids)
    ensures Increasing(WithoutId(ids, id))
    ensures forall x :: x in WithoutId(ids, id) <==> x in ids && x != id
  {
    WithoutIdMembers(ids, id);
    if ids != [] {
      WithoutIdMembers(ids[1..], id);
      WithoutIdIs(ids[1..], id);
      IncreasingCons(ids[0], WithoutId(ids[1..], id));
    }
  }

  lemma RemovedNth(ids: seq<ItemId>, n: nat)
    requires Increasing(ids) && n < |ids|
    ensures Increasing(ids[..n] + ids[n + 1..])
    ensures forall x :: x in ids[..n] + ids[n + 1..] <==> x in ids && x != ids[n]
  {
    assert ids == ids[..n] + [ids[n]] + ids[n + 1..];
  }

  lemma AddKeepsIndex(s: State, item: Item)
    requires Indexed(s)
    ensures Indexed(Apply(s, Add(item)))
  {
    assert forall i :: 0 <= i < |s.items| ==> s.items[i] in s.items;
  }

  /** Removing an id from the list and from the map. */
  lemma RemovalKeepsIndex(s: State, s': State, id: ItemId)
    requires Indexed(s) && s'.idMap == s.idMap - {id} && s'.nextId == s.nextId
    requires Increasing(s'.items) && forall x :: x in s'.items <==> x in s.items && x != id
    ensures Indexed(s')
  {
  }

  lemma ApplyKeepsIndex(s: State, op: Op)
    requires Indexed(s)
    ensures Indexed(Apply(s, op)) && s.nextId <= Apply(s, op).nextId
  {
    hide Increasing;
    match op
    case Add(item) => AddKeepsIndex(s, item);
    case RemoveNth(n) =>
      if n < |s.items| {
        RemovedNth(s.items, n);
        RemovalKeepsIndex(s, Apply(s, op), s.items[n]);
      }
    case Delete(id) =>
      WithoutIdIs(s.items, id);
      RemovalKeepsIndex(s, Apply(s, op), id);
    case Clear => ClearedIndexed(s);
    case Update(_, _) =>
  }

  lemma ClearedIndexed(s: State)
    ensures Indexed(Apply(s, Clear))
  {
  }

  /** The index is sound after every run of operations from any sound state. */
  lemma {:induction false} RunKeepsIndex(s: State, ops: seq<Op>)
    requires Indexed(s)
    ensures Indexed(Run(s, ops)) && s.nextId <= Run(s, ops).nextId
    decreases |ops|
  {
    if ops != [] {
      ApplyKeepsIndex(s, ops[0]);
      RunKeepsIndex(Apply(s, ops[0]), ops[1..]);
    }
  }

  /** Items keep knowing their ids as long as updates preserve them. */
  lemma {:induction false} RunKeepsNames(s: State, ops: seq<Op>)
    requires SelfNamed(s)
    requires forall i :: 0 <= i < |ops| && ops[i].Update? ==> ops[i].item.id == ops[i].id
    ensures SelfNamed(Run(s, ops))
    decreases |ops|
  {
    if ops != [] {
      assert SelfNamed(Apply(s, ops[0]));
      RunKeepsNames(Apply(s, ops[0]), ops[1..]);
    }
  }

  lemma ApplyNeverRevives(s: State, op: Op, id: ItemId)
    requires Indexed(s) && id < s.nextId && id !in s.items
    ensures id !in Apply(s, op).items
  {
    match op
    case RemoveNth(n) =>
      if n < |s.items| {
        RemovedNth(s.items, n);
      }
    case Delete(other) => WithoutIdIs(s.items, other);
    case _ =>
  }

  /** An id that was given out and is gone never comes back. */
  lemma {:induction false} GoneForGood(s: State, ops: seq<Op>, id: ItemId)
    requires Indexed(s) && id < s.nextId && id !in s.items
    ensures id !in Run(s, ops).items
    decreases |ops|
  {
    if ops != [] {
      ApplyKeepsIndex(s, ops[0]);
      ApplyNeverRevives(s, ops[0], id);
      GoneForGood(Apply(s, ops[0]), ops[1..], id);
    }
  }

  // ----- The file -----

  predicate IsWhitespace(c: char) {
    var n := c as int;
    0x09 <= n <= 0x0D || n == 0x20 || n == 0x85 || n == 0xA0 || n == 0x1680 || 0x2000 <= n <= 0x200A
    || n == 0x2028 || n == 0x2029 || n == 0x202F || n == 0x205F || n == 0x3000
  }

  function TrimStart(s: string): string {
    if s != "" && IsWhitespace(s[0]) then TrimStart(s[1..]) else s
  }

  function TrimEnd(s: string): string {
    if s != "" && IsWhitespace(s[|s| - 1]) then TrimEnd(s[..|s| - 1]) else s
  }

  /** The line terminator is a newline with a carriage return before it, if there is one. */
  function StripCr(line: string): string {
    if line != "" && line[|line| - 1] == '\r' then line[..|line| - 1] else line
  }

  /** How far the first newline is, if there is one. */
  function LineLength(text: string): (n: nat)
    ensures n <= |text|
    ensures forall i :: 0 <= i < n ==> text[i] != '\n'
    ensures n < |text| ==> text[n] == '\n'
  {
    if text == "" || text[0] == '\n' then 0 else 1 + LineLength(text[1..])
  }

  /** The lines of a text; a last line that is not terminated keeps its carriage return. */
  function Lines(text: string): seq<string> {
    var n := LineLength(text);
    if text == "" then []
    else if n == |text| then [text]
    else [StripCr(text[..n])] + Lines(text[n + 1..])
  }

  /** What the reader hands over for a line: its text, a line that is not valid UTF-8, or another
      failure. */
  datatype LineResult = Line(text: string) | Undecodable | Unreadable

  function Decoded(results: seq<LineResult>): seq<string> {
    if results == [] then []
    else (if results[0].Line? then [results[0].text] else []) + Decoded(results[1..])
  }

  /** What a reader hands over for a text. */
  function ReadAll(lines: seq<string>): seq<LineResult> {
    if lines == [] then [] else [Line(lines[0])] + ReadAll(lines[1..])
  }

  lemma {:induction false} TextDecodes(lines: seq<string>)
    ensures Decoded(ReadAll(lines)) == lines && Unreadable !in ReadAll(lines)
  {
    if lines != [] {
      TextDecodes(lines[1..]);
    }
  }

  /** A line of the history file: a comment that may be a time, or a command. */
  datatype FileLine = Comment(time: Option<Timestamp>) | Command(commandLine: string)

  /** The times of the chrono library end at some year; which whole seconds are in range is not
      part of this model. */
  function Classify(line: string, representable: int -> bool): FileLine {
    if line == "" || line[0] != '#' then Command(line)
    else
      match ParseI64(TrimEnd(TrimStart(line[1..])))
      case None => Comment(None)
      case Some(seconds) => Comment(if representable(seconds) then Some(Timestamp(seconds, 0)) else None)
  }

  /** What importing adds, in order, with the time that precedes the next command. */
  function ImportedLines(lines: seq<string>, time: Option<Timestamp>, representable: int -> bool): seq<Item> {
    if lines == [] then []
    else
      match Classify(lines[0], representable)
      case Comment(t) => ImportedLines(lines[1..], t, representable)
      case Command(commandLine) =>
        [Item(0, commandLine, time, false)] + ImportedLines(lines[1..], None, representable)
  }

  /** The lines written for one item. */
  function Written(item: Item, writeTimestamps: bool): string {
    (if writeTimestamps && item.timestamp.Some? then "#" + IntToString(item.timestamp.value.seconds) + "\n" else "")
    + item.commandLine + "\n"
  }

  predicate Skipped(item: Item, unsavedOnly: bool) { unsavedOnly && !item.dirty }

  /** What flushing writes for one id. */
  function FlushOne(id: ItemId, idMap: map<ItemId, Item>, unsavedOnly: bool, writeTimestamps: bool): string {
    if id in idMap && !Skipped(idMap[id], unsavedOnly) then Written(idMap[id], writeTimestamps) else ""
  }

  function FlushText(ids: seq<ItemId>, idMap: map<ItemId, Item>, unsavedOnly: bool, writeTimestamps: bool): string {
    if ids == [] then ""
    else
      FlushOne(ids[0], idMap, unsavedOnly, writeTimestamps)
      + FlushText(ids[1..], idMap, unsavedOnly, writeTimestamps)
  }

  /** Flushing the unsaved items marks them saved; flushing everything marks nothing. */
  function Flushed(ids: seq<ItemId>, idMap: map<ItemId, Item>, unsavedOnly: bool): (r: map<ItemId, Item>)
    ensures r.Keys == idMap.Keys
  {
    map id | id in idMap :: if unsavedOnly && id in ids then idMap[id].(dirty := false) else idMap[id]
  }

  /** The items in order. */
  ghost function Contents(s: State): (r: seq<Item>)
    requires Indexed(s)
    ensures |r| == |s.items|
    ensures forall i :: 0 <= i < |r| ==> s.items[i] in s.idMap && r[i] == s.idMap[s.items[i]]
  {
    assert forall i :: 0 <= i < |s.items| ==> s.items[i] in s.items;
    seq(|s.items|, i requires 0 <= i < |s.items| => s.idMap[s.items[i]])
  }

  /** The state that holds the given items under ids from zero on. */
  predicate Holds(s: State, items: seq<Item>) {
    && |s.items| == |items| && s.nextId == |items|
    && (forall i :: 0 <= i < |items| ==> s.items[i] == i && i in s.idMap && s.idMap[i] == items[i].(id := i))
    && (forall id :: id in s.idMap ==> 0 <= id < |items|)
  }

  lemma HoldsIsIndexed(s: State, items: seq<Item>)
    requires Holds(s, items)
    ensures Indexed(s) && SelfNamed(s)
  {
    forall id | id in s.idMap ensures id in s.items {
      assert s.items[id] == id;
    }
  }

  lemma HoldsNothing()
    ensures Holds(EMPTY, [])
  {
  }

  lemma HoldsAdd(s: State, items: seq<Item>, item: Item)
    requires Holds(s, items)
    ensures Holds(Apply(s, Add(item)), items + [item.(id := 0)])
  {
  }

  lemma ImportLine(line: string, rest: seq<string>, time: Option<Timestamp>, representable: int -> bool,
                   done: seq<Item>)
    ensures var kind := Classify(line, representable);
            done + ImportedLines([line] + rest, time, representable)
            == if kind.Comment? then done + ImportedLines(rest, kind.time, representable)
               else (done + [Item(0, kind.commandLine, time, false)]) + ImportedLines(rest, None, representable)
  {
    ImportStep(line, rest, time, representable);
  }

  lemma DecodeStep(results: seq<LineResult>, i: nat)
    requires i < |results|
    ensures Decoded(results[i..])
         == (if results[i].Line? then [results[i].text] else []) + Decoded(results[i + 1..])
    ensures !results[i].Line? ==> Decoded(results[i..]) == Decoded(results[i + 1..])
  {
    SuffixStep(results, i);
  }

  lemma NothingToImport(results: seq<LineResult>, time: Option<Timestamp>, representable: int -> bool)
    requires results == []
    ensures ImportedLines(Decoded(results), time, representable) == []
  {
  }

  class History {
    var items: seq<ItemId>
    var idMap: map<ItemId, Item>
    var nextId: ItemId

    ghost function Value(): State
      reads this
    {
      State(items, idMap, nextId)
    }

    constructor ()
      ensures Value() == EMPTY
    {
      items, idMap, nextId := [], map[], 0;
    }

    method Add(item: Item) returns (id: ItemId)
      modifies this
      ensures Value() == Apply(old(Value()), Op.Add(item)) && id == old(nextId)
    {
      id := nextId;
      var item' := item.(id := id);
      nextId := nextId + 1;
      items := items + [item'.id];
      idMap := idMap[item'.id := item'];
    }

    method RemoveNthItem(n: nat) returns (removed: bool)
      modifies this
      ensures Value() == Apply(old(Value()), RemoveNth(n)) && removed == (n < |old(items)|)
    {
      if n >= |items| {
        return false;
      }
      var id := items[n];
      var kept: seq<ItemId> := [];
      for i := 0 to |items|
        invariant kept == if i <= n then items[..i] else items[..n] + items[n + 1..i]
      {
        if i != n {
          kept := kept + [items[i]];
        }
      }
      assert items[n + 1..|items|] == items[n + 1..];
      items := kept;
      idMap := idMap - {id};
      removed := true;
    }

    method DeleteItemById(id: ItemId)
      modifies this
      ensures Value() == Apply(old(Value()), Delete(id))
    {
      idMap := idMap - {id};
      var kept: seq<ItemId> := [];
      assert items[0..] == items;
      for i := 0 to |items|
        invariant WithoutId(items, id) == kept + WithoutId(items[i..], id)
      {
        assert items[i..][0] == items[i] && items[i..][1..] == items[i + 1..];
        if items[i] != id {
          kept := kept + [items[i]];
        }
      }
      items := kept;
    }

    method Clear()
      modifies this
      ensures Value() == Apply(old(Value()), Op.Clear)
    {
      idMap := map[];
      items := [];
    }

    method UpdateById(id: ItemId, item: Item) returns (found: bool)
      modifies this
      ensures Value() == Apply(old(Value()), Update(id, item)) && found == (id in old(idMap))
    {
      found := id in idMap;
      if found {
        idMap := idMap[id := item];
      }
    }

    /** A new history with the commands of a file, numbered from zero and saved. Lines that do not
        decode are skipped; any other failure to read ends the import. */
    static method Import(results: seq<LineResult>, representable: int -> bool) returns (r: Option<History>)
      ensures r.None? <==> Unreadable in results
      ensures r.Some? ==>
                && fresh(r.value)
                && Holds(r.value.Value(), ImportedLines(Decoded(results), None, representable))
                && Indexed(r.value.Value()) && SelfNamed(r.value.Value())
    {
      hide Decoded, Classify, Apply, Holds, Indexed, SelfNamed, ImportedLines;
      var history := new History();
      var nextTimestamp: Option<Timestamp> := None;
      ghost var done: seq<Item> := [];
      ghost var all := ImportedLines(Decoded(results), None, representable);
      assert results[0..] == results && [] + all == all;
      HoldsNothing();
      for i := 0 to |results|
        invariant fresh(history) && Holds(history.Value(), done)
        invariant all == done + ImportedLines(Decoded(results[i..]), nextTimestamp, representable)
        invariant forall k :: 0 <= k < i ==> results[k] != Unreadable
      {
        DecodeStep(results, i);
        match results[i]
        case Undecodable =>
          continue;
        case Unreadable =>
          return None;
        case Line(line) =>
          ImportLine(line, Decoded(results[i + 1..]), nextTimestamp, representable, done);
          var kind := Classify(line, representable);
          if kind.Comment? {
            nextTimestamp := kind.time;
          } else {
            var item := Item(history.nextId, kind.commandLine, nextTimestamp, false);
            HoldsAdd(history.Value(), done, item);
            done := done + [item.(id := 0)];
            var _ := history.Add(item);
            nextTimestamp := None;
          }
      }
      NothingToImport(results[|results|..], nextTimestamp, representable);
      assert done + [] == done;
      HoldsIsIndexed(history.Value(), done);
      r := Some(history);
    }

    /** Writes the items out, all of them or the unsaved ones; only the latter marks them. */
    method Flush(unsavedItemsOnly: bool, writeTimestamps: bool) returns (file: string)
      requires Indexed(Value())
      modifies this`idMap
      ensures file == FlushText(items, old(idMap), unsavedItemsOnly, writeTimestamps)
      ensures idMap == Flushed(items, old(idMap), unsavedItemsOnly)
    {
      hide Written, FlushText, Flushed;
      file := "";
      assert items[0..] == items;
      ghost var idMap0 := idMap;
      FlushNothing(idMap, unsavedItemsOnly, writeTimestamps);
      NothingBefore(FlushText(items, idMap, unsavedItemsOnly, writeTimestamps));
      assert items[..0] == [];
      for i := 0 to |items|
        invariant FlushText([], idMap0, unsavedItemsOnly, writeTimestamps) == ""
        invariant FlushText(items, idMap0, unsavedItemsOnly, writeTimestamps)
               == file + FlushText(items[i..], idMap0, unsavedItemsOnly, writeTimestamps)
        invariant idMap == Flushed(items[..i], idMap0, unsavedItemsOnly)
      {
        var id := items[i];
        FlushStep(items, i, idMap0, unsavedItemsOnly, writeTimestamps, file);
        var item := idMap[id];
        if unsavedItemsOnly && !item.dirty {
          assert file + "" == file;
          continue;
        }
        assert FlushOne(id, idMap0, unsavedItemsOnly, writeTimestamps) == Written(item, writeTimestamps);
        file := file + Written(item, writeTimestamps);
        if unsavedItemsOnly {
          idMap := idMap[id := item.(dirty := false)];
        }
      }
      assert items[..|items|] == items && items[|items|..] == [];
    }
  }

  lemma FlushNothing(idMap: map<ItemId, Item>, unsavedOnly: bool, writeTimestamps: bool)
    ensures FlushText([], idMap, unsavedOnly, writeTimestamps) == "" && Flushed([], idMap, unsavedOnly) == idMap
  {
  }

  lemma FlushStep(ids: seq<ItemId>, i: nat, idMap: map<ItemId, Item>, unsavedOnly: bool, writeTimestamps: bool,
                  file: string)
    requires Increasing(ids) && i < |ids| && ids[i] in idMap
    ensures file + FlushText(ids[i..], idMap, unsavedOnly, writeTimestamps)
         == (file + FlushOne(ids[i], idMap, unsavedOnly, writeTimestamps))
            + FlushText(ids[i + 1..], idMap, unsavedOnly, writeTimestamps)
    ensures Flushed(ids[..i], idMap, unsavedOnly)[ids[i]] == idMap[ids[i]]
    ensures Flushed(ids[..i + 1], idMap, unsavedOnly)
         == Flushed(ids[..i], idMap, unsavedOnly)[ids[i] := if unsavedOnly then idMap[ids[i]].(dirty := false)
           else idMap[ids[i]]]
  {
    hide FlushOne;
    assert ids[i..][0] == ids[i] && ids[i..][1..] == ids[i + 1..];
    Reassociate(file, FlushOne(ids[i], idMap, unsavedOnly, writeTimestamps),
                FlushText(ids[i + 1..], idMap, unsavedOnly, writeTimestamps));
    assert forall x :: x in ids[..i + 1] <==> x in ids[..i] || x == ids[i];
    assert ids[i] !in ids[..i];
  }

  /** Once the unsaved items are written there are none: a second time writes nothing. */
  lemma FlushTwiceWritesNothing(ids: seq<ItemId>, idMap: map<ItemId, Item>, writeTimestamps: bool)
    ensures FlushText(ids, Flushed(ids, idMap, true), true, writeTimestamps) == ""
  {
    hide FlushText;
    SavedWritesNothing(ids, Flushed(ids, idMap, true), writeTimestamps);
  }

  /** Appending the unsaved items to a file that holds the saved ones gives the file that
      writing everything gives. */
  lemma {:induction false} UnsavedCompletesTheFile(saved: seq<ItemId>, unsaved: seq<ItemId>,
                                                   idMap: map<ItemId, Item>, writeTimestamps: bool)
    requires forall id :: id in saved ==> id in idMap && !idMap[id].dirty
    requires forall id :: id in unsaved ==> id in idMap && idMap[id].dirty
    ensures FlushText(saved, idMap, false, writeTimestamps) + FlushText(saved + unsaved, idMap, true, writeTimestamps)
         == FlushText(saved + unsaved, idMap, false, writeTimestamps)
  {
    hide FlushText;
    FlushConcat(saved, unsaved, idMap, true, writeTimestamps);
    FlushConcat(saved, unsaved, idMap, false, writeTimestamps);
    SavedWritesNothing(saved, idMap, writeTimestamps);
    DirtyWritesAll(unsaved, idMap, writeTimestamps);
    NothingBefore(FlushText(unsaved, idMap, true, writeTimestamps));
  }

  lemma NothingBefore(text: string)
    ensures "" + text == text
  {
  }

  lemma {:induction false} FlushConcat(a: seq<ItemId>, b: seq<ItemId>, idMap: map<ItemId, Item>, unsavedOnly: bool,
                                       writeTimestamps: bool)
    ensures FlushText(a + b, idMap, unsavedOnly, writeTimestamps)
         == FlushText(a, idMap, unsavedOnly, writeTimestamps) + FlushText(b, idMap, unsavedOnly, writeTimestamps)
  {
    hide FlushOne;
    if a == [] {
      assert a + b == b;
    } else {
      assert (a + b)[0] == a[0] && (a + b)[1..] == a[1..] + b;
      FlushConcat(a[1..], b, idMap, unsavedOnly, writeTimestamps);
      Reassociate(FlushOne(a[0], idMap, unsavedOnly, writeTimestamps),
                  FlushText(a[1..], idMap, unsavedOnly, writeTimestamps),
                  FlushText(b, idMap, unsavedOnly, writeTimestamps));
    }
  }

  lemma {:induction false} SavedWritesNothing(ids: seq<ItemId>, idMap: map<ItemId, Item>, writeTimestamps: bool)
    requires forall id :: id in ids && id in idMap ==> !idMap[id].dirty
    ensures FlushText(ids, idMap, true, writeTimestamps) == ""
  {
    hide Written;
    if ids != [] {
      assert FlushOne(ids[0], idMap, true, writeTimestamps) == "" by {
        assert ids[0] in ids;
      }
      hide FlushOne;
      assert forall id :: id in ids[1..] ==> id in ids;
      SavedWritesNothing(ids[1..], idMap, writeTimestamps);
    }
  }

  lemma {:induction false} DirtyWritesAll(ids: seq<ItemId>, idMap: map<ItemId, Item>, writeTimestamps: bool)
    requires forall id :: id in ids ==> id in idMap && idMap[id].dirty
    ensures FlushText(ids, idMap, true, writeTimestamps) == FlushText(ids, idMap, false, writeTimestamps)
  {
    hide Written;
    if ids != [] {
      assert FlushOne(ids[0], idMap, true, writeTimestamps) == FlushOne(ids[0], idMap, false, writeTimestamps) by {
        assert ids[0] in ids;
      }
      hide FlushOne;
      assert forall id :: id in ids[1..] ==> id in ids;
      DirtyWritesAll(ids[1..], idMap, writeTimestamps);
    }
  }

  // ----- The file reads back -----

  function WrittenAll(items: seq<Item>, writeTimestamps: bool): string {
    if items == [] then "" else Written(items[0], writeTimestamps) + WrittenAll(items[1..], writeTimestamps)
  }

  lemma {:induction false} FlushIsWrittenAll(s: State, i: nat, writeTimestamps: bool)
    requires Indexed(s) && i <= |s.items|
    ensures FlushText(s.items[i..], s.idMap, false, writeTimestamps) == WrittenAll(Contents(s)[i..], writeTimestamps)
    decreases |s.items| - i
  {
    hide Written;
    if i < |s.items| {
      var ids, items := s.items, Contents(s);
      assert ids[i..][0] == ids[i] && ids[i..][1..] == ids[i + 1..] && ids[i] in ids;
      assert items[i..][0] == items[i] && items[i..][1..] == items[i + 1..];
      FlushIsWrittenAll(s, i + 1, writeTimestamps);
    }
  }

  /** A command that takes one line of the file and is not taken for a comment. */
  predicate OneLine(commandLine: string) {
    '\n' !in commandLine && (commandLine == "" || commandLine[0] != '#')
  }

  /** A command that the file gives back unchanged. */
  predicate Clean(commandLine: string) {
    OneLine(commandLine) && (commandLine == "" || commandLine[|commandLine| - 1] != '\r')
  }

  /** The item an imported line becomes; its id is assigned when it is added. */
  function Restored(item: Item, writeTimestamps: bool): Item {
    Item(0, StripCr(item.commandLine),
         if writeTimestamps && item.timestamp.Some? then Some(item.timestamp.value.(nanoseconds := 0)) else None,
         false)
  }

  function RestoredAll(items: seq<Item>, writeTimestamps: bool): seq<Item> {
    if items == [] then [] else [Restored(items[0], writeTimestamps)] + RestoredAll(items[1..], writeTimestamps)
  }

  lemma LineLengthOf(line: string, rest: string)
    requires '\n' !in line
    ensures LineLength(line + "\n" + rest) == |line|
  {
    var text := line + "\n" + rest;
    var n := LineLength(text);
    assert text[|line|] == '\n';
    assert forall i :: 0 <= i < |line| ==> text[i] == line[i] && line[i] in line;
  }

  lemma LinesStep(line: string, rest: string)
    requires '\n' !in line
    ensures Lines(line + "\n" + rest) == [StripCr(line)] + Lines(rest)
  {
    hide StripCr, LineLength;
    var text := line + "\n" + rest;
    LineLengthOf(line, rest);
    assert text[..|line|] == line && text[|line| + 1..] == rest;
  }

  lemma TimeLineReads(seconds: i64, representable: int -> bool)
    ensures var line := "#" + IntToString(seconds);
            && '\n' !in line && StripCr(line) == line
            && Classify(line, representable)
               == Comment(if representable(seconds) then Some(Timestamp(seconds, 0)) else None)
  {
    var numeral, line := IntToString(seconds), "#" + IntToString(seconds);
    assert forall i :: 0 <= i < |numeral| ==> IsDigit(numeral[i]) || numeral[i] == '-';
    assert forall i :: 1 <= i < |line| ==> line[i] == numeral[i - 1];
    assert line[1..] == numeral;
    assert numeral != "";
    assert TrimStart(numeral) == numeral && TrimEnd(numeral) == numeral;
    ParseIntToString(seconds, I64_MIN, I64_MAX);
  }

  lemma CommandLineReads(commandLine: string, representable: int -> bool)
    requires OneLine(commandLine)
    ensures Classify(StripCr(commandLine), representable) == Command(StripCr(commandLine))
  {
  }

  lemma WrittenThen(item: Item, writeTimestamps: bool, rest: string)
    ensures var tail := item.commandLine + "\n" + rest;
            Written(item, writeTimestamps) + rest
            == if writeTimestamps && item.timestamp.Some?
               then "#" + IntToString(item.timestamp.value.seconds) + "\n" + tail
               else tail
  {
  }

  /** Flushed items are imported as they were, up to a carriage return at the end of a command,
      the fraction of a second, and the identity the import gives them. */
  lemma {:induction false} FileReadsBack(items: seq<Item>, writeTimestamps: bool, representable: int -> bool)
    requires forall i :: 0 <= i < |items| ==> OneLine(items[i].commandLine)
    requires forall i :: 0 <= i < |items| && items[i].timestamp.Some? ==>
               representable(items[i].timestamp.value.seconds)
    ensures ImportedLines(Lines(WrittenAll(items, writeTimestamps)), None, representable)
            == RestoredAll(items, writeTimestamps)
  {
    hide Written, Classify, StripCr, OneLine;
    if items != [] {
      var item, rest := items[0], WrittenAll(items[1..], writeTimestamps);
      FileReadsBack(items[1..], writeTimestamps, representable);
      WrittenThen(item, writeTimestamps, rest);
      ItemReadsBack(item, writeTimestamps, representable, rest);
    }
  }

  lemma ItemReadsBack(item: Item, writeTimestamps: bool, representable: int -> bool, rest: string)
    requires OneLine(item.commandLine)
    requires item.timestamp.Some? ==> representable(item.timestamp.value.seconds)
    ensures ImportedLines(Lines(Written(item, writeTimestamps) + rest), None, representable)
         == [Restored(item, writeTimestamps)] + ImportedLines(Lines(rest), None, representable)
  {
    hide Written, Lines, StripCr, IntToString;
    var tail := item.commandLine + "\n" + rest;
    WrittenThen(item, writeTimestamps, rest);
    LinesStep(item.commandLine, rest);
    CommandLineReads(item.commandLine, representable);
    ImportStep(StripCr(item.commandLine), Lines(rest), None, representable);
    if writeTimestamps && item.timestamp.Some? {
      var seconds := item.timestamp.value.seconds;
      TimeLineReads(seconds, representable);
      LinesStep("#" + IntToString(seconds), tail);
      ImportStep("#" + IntToString(seconds), Lines(tail), None, representable);
      ImportStep(StripCr(item.commandLine), Lines(rest), Some(Timestamp(seconds, 0)), representable);
    }
  }

  lemma ImportStep(line: string, lines: seq<string>, time: Option<Timestamp>, representable: int -> bool)
    ensures ImportedLines([line] + lines, time, representable)
         == var kind := Classify(line, representable);
            if kind.Comment? then ImportedLines(lines, kind.time, representable)
            else [Item(0, kind.commandLine, time, false)] + ImportedLines(lines, None, representable)
  {
    assert ([line] + lines)[0] == line && ([line] + lines)[1..] == lines;
  }

  // ----- Exactly when the commands survive -----

  function CommandLines(items: seq<Item>): (r: seq<string>)
    ensures |r| == |items| && forall i :: 0 <= i < |r| ==> r[i] == items[i].commandLine
  {
    seq(|items|, i requires 0 <= i < |items| => items[i].commandLine)
  }

  lemma {:induction false} LinesHoldNoNewline(text: string)
    ensures forall line :: line in Lines(text) ==> '\n' !in line
    decreases |text|
  {
    var n := LineLength(text);
    if n < |text| {
      LinesHoldNoNewline(text[n + 1..]);
      assert '\n' !in text[..n];
    }
  }

  lemma {:induction false} ImportedAreOneLine(lines: seq<string>, time: Option<Timestamp>, representable: int -> bool)
    requires forall line :: line in lines ==> '\n' !in line
    ensures forall item :: item in ImportedLines(lines, time, representable) ==> OneLine(item.commandLine)
  {
    if lines != [] {
      assert lines[0] in lines && forall line :: line in lines[1..] ==> line in lines;
      var kind := Classify(lines[0], representable);
      ImportedAreOneLine(lines[1..], if kind.Comment? then kind.time else None, representable);
    }
  }

  lemma {:induction false} RestoredCommands(items: seq<Item>, writeTimestamps: bool)
    ensures |RestoredAll(items, writeTimestamps)| == |items|
    ensures forall i :: 0 <= i < |items| ==>
              RestoredAll(items, writeTimestamps)[i] == Restored(items[i], writeTimestamps)
  {
    if items != [] {
      RestoredCommands(items[1..], writeTimestamps);
    }
  }

  predicate AllOneLine(items: seq<Item>) {
    forall i :: 0 <= i < |items| ==> OneLine(items[i].commandLine)
  }

  /** The commands come back unchanged, in order, exactly when each of them is one line that does
      not start with a hash sign and does not end in a carriage return. */
  lemma CommandsSurviveExactly(items: seq<Item>, writeTimestamps: bool, representable: int -> bool)
    requires forall i :: 0 <= i < |items| && items[i].timestamp.Some? ==>
               representable(items[i].timestamp.value.seconds)
    ensures var imported := ImportedLines(Lines(WrittenAll(items, writeTimestamps)), None, representable);
            CommandLines(imported) == CommandLines(items)
            <==> forall i :: 0 <= i < |items| ==> Clean(items[i].commandLine)
  {
    hide Lines, ImportedLines, WrittenAll, OneLine, RestoredAll;
    var file := WrittenAll(items, writeTimestamps);
    var imported := ImportedLines(Lines(file), None, representable);
    if AllOneLine(items) {
      FileReadsBack(items, writeTimestamps, representable);
      RestoredCommands(items, writeTimestamps);
      assert forall i :: 0 <= i < |items| ==> CommandLines(imported)[i] == StripCr(items[i].commandLine);
    } else if CommandLines(imported) == CommandLines(items) {
      SurvivorsAreOneLine(items, file, representable);
    }
  }

  lemma SurvivorsAreOneLine(items: seq<Item>, file: string, representable: int -> bool)
    requires CommandLines(ImportedLines(Lines(file), None, representable)) == CommandLines(items)
    ensures AllOneLine(items)
  {
    hide Lines, ImportedLines, OneLine;
    var imported := ImportedLines(Lines(file), None, representable);
    LinesHoldNoNewline(file);
    ImportedAreOneLine(Lines(file), None, representable);
    forall i | 0 <= i < |items| ensures OneLine(items[i].commandLine) {
      assert CommandLines(imported)[i] == imported[i].commandLine && imported[i] in imported;
      assert CommandLines(items)[i] == items[i].commandLine;
    }
  }

  /** The whole round trip: a sound history flushed with its timestamps and imported again holds
      the same commands in the same order under the ids 0, 1, 2, ..., saved, with times to the
      second. */
  lemma HistorySurvives(s: State, imported: State, representable: int -> bool)
    requires Indexed(s)
    requires forall i :: 0 <= i < |s.items| ==> Clean(Contents(s)[i].commandLine)
    requires forall i :: 0 <= i < |s.items| && Contents(s)[i].timestamp.Some? ==>
               representable(Contents(s)[i].timestamp.value.seconds)
    requires var file := FlushText(s.items, s.idMap, false, true);
             Holds(imported, ImportedLines(Decoded(ReadAll(Lines(file))), None, representable))
    ensures |imported.items| == |s.items| == imported.nextId
    ensures forall i :: 0 <= i < |s.items| ==>
              var item := Contents(s)[i];
              && imported.items[i] == i && i in imported.idMap
              && imported.idMap[i]
                 == Item(i, item.commandLine,
                         if item.timestamp.Some? then Some(item.timestamp.value.(nanoseconds := 0)) else None, false)
  {
    hide Lines, ImportedLines, WrittenAll, FlushText, RestoredAll;
    var items := Contents(s);
    assert s.items[0..] == s.items && items[0..] == items;
    TextDecodes(Lines(FlushText(s.items, s.idMap, false, true)));
    FlushIsWrittenAll(s, 0, true);
    FileReadsBack(items, true, representable);
    RestoredCommands(items, true);
  }

  // ----- The file in characters -----

  /** The code points of white space. */
  const SPACES := [0x09, 0x0A, 0x0B, 0x0C, 0x0D, 0x20, 0x85, 0xA0, 0x1680, 0x2000, 0x2001, 0x2002, 0x2003, 0x2004,
                   0x2005, 0x2006, 0x2007, 0x2008, 0x2009, 0x200A, 0x2028, 0x2029, 0x202F, 0x205F, 0x3000]

  predicate IsSpace(c: char) { c as int in SPACES }

  lemma SpaceIs(c: char)
    ensures IsWhitespace(c) <==> IsSpace(c)
  {
  }

  predicate AllSpaces(s: string) { forall i :: 0 <= i < |s| ==> IsSpace(s[i]) }

  /** White space around a text that has none at its ends is trimmed away. */
  lemma {:induction false} TrimmedIs(before: string, t: string, after: string)
    requires AllSpaces(before) && AllSpaces(after)
    requires t != "" ==> !IsSpace(t[0]) && !IsSpace(t[|t| - 1])
    ensures TrimEnd(TrimStart(before + t + after)) == t
    decreases |before| + |after|
  {
    hide IsWhitespace, IsSpace, TrimEnd;
    if before != "" {
      SpaceIs(before[0]);
      assert (before + t + after)[1..] == before[1..] + t + after;
      TrimmedIs(before[1..], t, after);
    } else if t == "" {
      assert before + t + after == after;
      NothingLeft(after);
    } else {
      assert before + t + after == t + after;
      SpaceIs(t[0]);
      EndTrimmed(t, after);
    }
  }

  lemma {:induction false} NothingLeft(s: string)
    requires AllSpaces(s)
    ensures TrimStart(s) == "" && TrimEnd("") == ""
  {
    hide IsWhitespace, IsSpace;
    if s != "" {
      SpaceIs(s[0]);
      NothingLeft(s[1..]);
    }
  }

  lemma {:induction false} EndTrimmed(t: string, after: string)
    requires AllSpaces(after) && t != "" && !IsSpace(t[|t| - 1])
    ensures TrimEnd(t + after) == t
    decreases |after|
  {
    hide IsWhitespace, IsSpace;
    var n := |after|;
    if n == 0 {
      assert t + after == t;
      SpaceIs(t[|t| - 1]);
    } else {
      SpaceIs(after[n - 1]);
      assert (t + after)[..|t| + n - 1] == t + after[..n - 1];
      EndTrimmed(t, after[..n - 1]);
    }
  }

  /** Lines end at newlines; one carriage return before a newline goes with it. What follows the
      last newline is a line too, unless it is empty. */
  lemma LinesSplit(line: string, more: string)
    requires '\n' !in line
    ensures Lines(line + ['\n'] + more)
         == [if line != "" && line[|line| - 1] as int == 0x0D then line[..|line| - 1] else line] + Lines(more)
    ensures Lines(line) == if line == "" then [] else [line]
  {
    hide LineLength;
    LineEnds(line, more);
    if line != "" {
      assert LineLength(line) == |line| by { LineEnds(line, more); }
    }
  }

  lemma LineEnds(line: string, more: string)
    requires '\n' !in line
    ensures var text := line + ['\n'] + more;
            LineLength(text) == |line| && text[..|line|] == line && text[|line| + 1..] == more
    ensures LineLength(line) == |line|
  {
    hide LineLength;
    var text := line + ['\n'] + more;
    assert text[|line|] == '\n' && forall i :: 0 <= i < |line| ==> text[i] == line[i];
    assert forall i :: 0 <= i < |line| ==> line[i] in line;
  }

  /** A line that does not begin with a number sign is a command, with the time that the line
      before it gave, and the next command starts without one. */
  lemma CommandLineImports(line: string, rest: seq<string>, time: Option<Timestamp>, representable: int -> bool)
    requires line == "" || line[0] as int != 0x23
    ensures ImportedLines([line] + rest, time, representable)
         == [Item(0, line, time, false)] + ImportedLines(rest, None, representable)
  {
    assert ([line] + rest)[1..] == rest;
  }

  /** One that does gives the time for the next command: the seconds it holds, in decimal and with
      white space around them, if there are such a number and such a time; otherwise none. */
  lemma CommentImports(before: string, t: string, after: string, rest: seq<string>, time: Option<Timestamp>,
                       representable: int -> bool)
    requires AllSpaces(before) && AllSpaces(after)
    requires t != "" ==> !IsSpace(t[0]) && !IsSpace(t[|t| - 1])
    ensures var seconds := ParseI64(t);
            ImportedLines([['#'] + (before + t + after)] + rest, time, representable)
            == ImportedLines(rest,
                             if seconds.Some? && representable(seconds.value) then Some(Timestamp(seconds.value, 0))
                             else None,
                             representable)
  {
    hide TrimStart, TrimEnd, ParseInt;
    var line := ['#'] + (before + t + after);
    TrimmedIs(before, t, after);
    assert line[1..] == before + t + after;
    assert ([line] + rest)[1..] == rest;
  }

  /** What is written for the first id: nothing for an unknown one or, if only unsaved items are
      asked for, a saved one; otherwise its command on a line of its own, behind a line with its
      seconds if they are asked for and there are any. */
  lemma FlushWrites(id: ItemId, rest: seq<ItemId>, idMap: map<ItemId, Item>, unsavedOnly: bool, writeTimestamps: bool)
    ensures var (all, more) := (FlushText([id] + rest, idMap, unsavedOnly, writeTimestamps),
                                FlushText(rest, idMap, unsavedOnly, writeTimestamps));
            if id !in idMap || (unsavedOnly && !idMap[id].dirty) then all == more
            else
              var command := idMap[id].commandLine + ['\n'] + more;
              if writeTimestamps && idMap[id].timestamp.Some?
              then all == ['#'] + IntToString(idMap[id].timestamp.value.seconds) + ['\n'] + command
              else all == command
  {
    hide IntToString;
    assert ([id] + rest)[0] == id && ([id] + rest)[1..] == rest;
    var more := FlushText(rest, idMap, unsavedOnly, writeTimestamps);
    assert "" + more == more;
    if id in idMap {
      var command := idMap[id].commandLine;
      assert "" + command + "\n" + more == command + ['\n'] + more;
      if idMap[id].timestamp.Some? {
        var seconds := IntToString(idMap[id].timestamp.value.seconds);
        assert "#" + seconds + "\n" + command + "\n" + more == ['#'] + seconds + ['\n'] + (command + ['\n'] + more);
      }
    }
  }

  // ----- Searching -----

  datatype Direction = Forward | Backward

  datatype CommandLineFilter =
    | Prefix(text: string)
    | Suffix(text: string)
    | Contains(text: string)
    | Exact(text: string)

  datatype Query = Query(
    direction: Direction,
    notAtOrBeforeTime: Option<Timestamp>,
    notAtOrAfterTime: Option<Timestamp>,
    notAtOrBeforeId: Option<ItemId>,
    notAtOrAfterId: Option<ItemId>,
    maxItems: Option<i64>,
    commandLineFilter: Option<CommandLineFilter>)

  const EVERYTHING := Query(Forward, None, None, None, None, None, None)

  predicate AtOrBefore(a: Timestamp, b: Timestamp) {
    a.seconds < b.seconds || (a.seconds == b.seconds && a.nanoseconds <= b.nanoseconds)
  }

  predicate ContainsText(s: string, part: string) {
    part <= s || (s != "" && ContainsText(s[1..], part))
  }

  predicate Selects(filter: CommandLineFilter, commandLine: string) {
    match filter
    case Prefix(text) => text <= commandLine
    case Suffix(text) => |text| <= |commandLine| && commandLine[|commandLine| - |text|..] == text
    case Contains(text) => ContainsText(commandLine, text)
    case Exact(text) => commandLine == text
  }

  /** An item without a time passes every time bound. */
  predicate Includes(query: Query, item: Item) {
    && (query.notAtOrBeforeTime.Some? && item.timestamp.Some? ==>
          !AtOrBefore(item.timestamp.value, query.notAtOrBeforeTime.value))
    && (query.notAtOrAfterTime.Some? && item.timestamp.Some? ==>
          !AtOrBefore(query.notAtOrAfterTime.value, item.timestamp.value))
    && (query.notAtOrBeforeId.Some? ==> item.id > query.notAtOrBeforeId.value)
    && (query.notAtOrAfterId.Some? ==> item.id < query.notAtOrAfterId.value)
    && (query.commandLineFilter.Some? ==> Selects(query.commandLineFilter.value, item.commandLine))
  }

  /** A negative maximum, seen as an unsigned machine word, is out of reach. */
  function MaxCount(query: Query): nat
    requires query.maxItems.Some?
  {
    if query.maxItems.value < 0 then query.maxItems.value + USIZE_MAX + 1 else query.maxItems.value
  }

  predicate Exhausted(query: Query, count: nat) {
    query.maxItems.Some? && count >= MaxCount(query)
  }

  /** The ids a search still has ahead of it, in the order it visits them. */
  function Ahead(ids: seq<ItemId>, direction: Direction, nextIndex: Option<nat>): seq<ItemId> {
    match nextIndex
    case None => []
    case Some(index) =>
      if index >= |ids| then []
      else if direction.Forward? then ids[index..]
      else Reversed(ids[..index + 1])
  }

  function Reversed<T>(s: seq<T>): seq<T> {
    if s == [] then [] else [s[|s| - 1]] + Reversed(s[..|s| - 1])
  }

  /** What a search still returns. */
  function Results(query: Query, ids: seq<ItemId>, idMap: map<ItemId, Item>, count: nat): seq<Item> {
    if ids == [] then []
    else if ids[0] !in idMap then Results(query, ids[1..], idMap, count)
    else if Exhausted(query, count) then []
    else if Includes(query, idMap[ids[0]]) then [idMap[ids[0]]] + Results(query, ids[1..], idMap, count + 1)
    else Results(query, ids[1..], idMap, count)
  }

  function FirstIndex(ids: seq<ItemId>, direction: Direction): Option<nat> {
    if direction.Forward? then Some(0) else if ids == [] then None else Some(|ids| - 1)
  }

  lemma AheadStep(ids: seq<ItemId>, direction: Direction, index: nat)
    requires index < |ids|
    ensures var next := if direction.Forward? then Some(index + 1)
                        else if index == 0 then None
                        else Some((index - 1) as nat);
            Ahead(ids, direction, Some(index)) == [ids[index]] + Ahead(ids, direction, next)
  {
    if direction.Backward? {
      var front := ids[..index + 1];
      assert front[|front| - 1] == ids[index] && front[..|front| - 1] == ids[..index];
      assert Reversed(front) == [ids[index]] + Reversed(ids[..index]);
      if index == 0 {
        assert ids[..index] == [];
      }
    }
  }

  /** A search over a history that does not change meanwhile. */
  class Search {
    const history: History
    const query: Query
    var nextIndex: Option<nat>
    var count: nat

    ghost function Remaining(): seq<Item>
      reads this, history
    {
      Results(query, Ahead(history.items, query.direction, nextIndex), history.idMap, count)
    }

    constructor (history: History, query: Query)
      ensures this.history == history && this.query == query
      ensures Remaining()
           == var start := FirstIndex(history.items, query.direction);
              Results(query, Ahead(history.items, query.direction, start), history.idMap, 0)
    {
      this.history, this.query, this.count := history, query, 0;
      match query.direction
      case Forward =>
        nextIndex := Some(0);
      case Backward =>
        nextIndex := if history.items == [] then None else Some(|history.items| - 1);
    }

    /** How many positions are still ahead. */
    ghost function Distance(): nat
      reads this, history
    {
      |Ahead(history.items, query.direction, nextIndex)|
    }

    method IncrementNextIndex()
      requires nextIndex.Some? && nextIndex.value < |history.items|
      modifies this`nextIndex
      ensures Ahead(history.items, query.direction, old(nextIndex))
           == [history.items[old(nextIndex).value]] + Ahead(history.items, query.direction, nextIndex)
    {
      var index := nextIndex.value;
      AheadStep(history.items, query.direction, index);
      match query.direction
      case Forward => nextIndex := Some(index + 1);
      case Backward => nextIndex := if index == 0 then None else Some(index - 1);
    }

    /** Takes the next result; none when there is no more. */
    method Next() returns (r: Option<Item>)
      modifies this
      ensures old(Remaining()) == (if r.Some? then [r.value] + Remaining() else Remaining())
      ensures r.None? ==> Remaining() == []
    {
      hide Ahead, Includes, Exhausted;
      ghost var all := Remaining();
      while true
        invariant Remaining() == all
        decreases Distance()
      {
        if nextIndex.None? || nextIndex.value >= |history.items| {
          NothingAhead(history.items, query.direction, nextIndex);
          return None;
        }
        var id := history.items[nextIndex.value];
        IncrementNextIndex();
        ResultsStep(query, id, Ahead(history.items, query.direction, nextIndex), history.idMap, count);
        if id in history.idMap {
          var item := history.idMap[id];
          if Exhausted(query, count) {
            ExhaustedReturnsNothing(query, Ahead(history.items, query.direction, nextIndex), history.idMap, count);
            return None;
          }
          if Includes(query, item) {
            count := count + 1;
            return Some(item);
          }
        }
      }
    }
  }

  lemma NothingAhead(ids: seq<ItemId>, direction: Direction, nextIndex: Option<nat>)
    requires nextIndex.None? || nextIndex.value >= |ids|
    ensures Ahead(ids, direction, nextIndex) == []
  {
  }

  lemma ResultsStep(query: Query, id: ItemId, ids: seq<ItemId>, idMap: map<ItemId, Item>, count: nat)
    ensures Results(query, [id] + ids, idMap, count)
         == if id !in idMap then Results(query, ids, idMap, count)
            else if Exhausted(query, count) then []
            else if Includes(query, idMap[id]) then [idMap[id]] + Results(query, ids, idMap, count + 1)
            else Results(query, ids, idMap, count)
  {
    assert ([id] + ids)[0] == id && ([id] + ids)[1..] == ids;
  }

  lemma {:induction false} ExhaustedReturnsNothing(query: Query, ids: seq<ItemId>, idMap: map<ItemId, Item>, count: nat)
    requires Exhausted(query, count)
    ensures Results(query, ids, idMap, count) == []
  {
    if ids != [] {
      ExhaustedReturnsNothing(query, ids[1..], idMap, count);
    }
  }

  /** The items a query includes, in order. */
  function Matching(query: Query, items: seq<Item>): seq<Item> {
    if items == [] then []
    else (if Includes(query, items[0]) then [items[0]] else []) + Matching(query, items[1..])
  }

  function Take<T>(s: seq<T>, n: int): seq<T> {
    if n <= 0 then [] else if n < |s| then s[..n] else s
  }

  function Inverse<T>(s: seq<T>, direction: Direction): seq<T> {
    if direction.Forward? then s else Reversed(s)
  }

  lemma {:induction false} ResultsAre(query: Query, ids: seq<ItemId>, idMap: map<ItemId, Item>, items: seq<Item>,
                                      count: nat)
    requires |items| == |ids| && forall i :: 0 <= i < |ids| ==> ids[i] in idMap && idMap[ids[i]] == items[i]
    ensures Results(query, ids, idMap, count)
         == if query.maxItems.Some? then Take(Matching(query, items), MaxCount(query) - count)
           else Matching(query, items)
  {
    hide Includes, MaxCount, Results, Matching, Take;
    if ids == [] {
      NoResults(query, idMap, count);
    } else {
      assert ids == [ids[0]] + ids[1..] && items == [items[0]] + items[1..];
      ResultsStep(query, ids[0], ids[1..], idMap, count);
      MatchingStep(query, items[0], items[1..]);
      var more := if Includes(query, items[0]) then count + 1 else count;
      ResultsAre(query, ids[1..], idMap, items[1..], more);
      if query.maxItems.Some? {
        TakeStep(items[0], Matching(query, items[1..]), MaxCount(query) - count);
      }
    }
  }

  lemma NoResults(query: Query, idMap: map<ItemId, Item>, count: nat)
    ensures Results(query, [], idMap, count) == [] == Matching(query, [])
    ensures forall n: int :: Take(Matching(query, []), n) == []
  {
  }

  lemma MatchingStep(query: Query, item: Item, items: seq<Item>)
    ensures Matching(query, [item] + items)
         == if Includes(query, item) then [item] + Matching(query, items) else Matching(query, items)
  {
    hide Includes;
    assert ([item] + items)[0] == item && ([item] + items)[1..] == items;
  }

  lemma TakeStep<T>(x: T, s: seq<T>, n: int)
    ensures Take([x] + s, n) == if n <= 0 then [] else [x] + Take(s, n - 1)
    ensures n <= 0 ==> Take(s, n) == []
  {
  }

  lemma {:induction false} ReversedLength<T>(s: seq<T>)
    ensures |Reversed(s)| == |s|
    ensures forall i :: 0 <= i < |s| ==> Reversed(s)[i] == s[|s| - 1 - i]
  {
    if s != [] {
      ReversedLength(s[..|s| - 1]);
    }
  }

  /** A new search returns the items of the history that the query includes, oldest first or
      youngest first, cut off after the maximum; a negative maximum (2^63 or more as a word)
      cuts off nothing that fits in memory. */
  lemma SearchReturns(s: State, query: Query)
    requires Indexed(s)
    ensures var matching := Matching(query, Inverse(Contents(s), query.direction));
            Results(query, Ahead(s.items, query.direction, FirstIndex(s.items, query.direction)), s.idMap, 0)
            == if query.maxItems.Some? then Take(matching, MaxCount(query)) else matching
  {
    hide Matching, Results, MaxCount, Take, Indexed, Ahead;
    VisitedInOrder(s, query.direction);
    ResultsAre(query, Inverse(s.items, query.direction), s.idMap, Inverse(Contents(s), query.direction), 0);
  }

  /** A time in nanoseconds. */
  function Nanoseconds(t: Timestamp): int { t.seconds * 1_000_000_000 + t.nanoseconds }

  /** What a query asks of an item: its command line begins with, ends with, holds or is a text; its
      time and its id lie strictly between bounds, where a missing time is not held against it. */
  ghost predicate Wanted(query: Query, item: Item) {
    && (match query.commandLineFilter
        case None => true
        case Some(Prefix(text)) => exists more: string :: item.commandLine == text + more
        case Some(Suffix(text)) => exists before: string :: item.commandLine == before + text
        case Some(Contains(text)) => exists before: string, more: string :: item.commandLine == before + text + more
        case Some(Exact(text)) => item.commandLine == text)
    && (query.notAtOrBeforeId.Some? ==> query.notAtOrBeforeId.value < item.id)
    && (query.notAtOrAfterId.Some? ==> item.id < query.notAtOrAfterId.value)
    && (item.timestamp.Some? ==>
          && (query.notAtOrBeforeTime.Some? ==>
                Nanoseconds(query.notAtOrBeforeTime.value) < Nanoseconds(item.timestamp.value))
          && (query.notAtOrAfterTime.Some? ==>
                Nanoseconds(item.timestamp.value) < Nanoseconds(query.notAtOrAfterTime.value)))
  }

  predicate WholeNanoseconds(t: Option<Timestamp>) { t.Some? ==> t.value.nanoseconds < 1_000_000_000 }

  lemma AtOrBeforeIs(a: Timestamp, b: Timestamp)
    requires a.nanoseconds < 1_000_000_000 && b.nanoseconds < 1_000_000_000
    ensures AtOrBefore(a, b) <==> Nanoseconds(a) <= Nanoseconds(b)
  {
  }

  lemma {:induction false} ContainsIs(s: string, part: string)
    ensures ContainsText(s, part) <==> exists before: string, more: string :: s == before + part + more
  {
    if part <= s {
      assert s == "" + part + s[|part|..];
    } else if s != "" {
      ContainsIs(s[1..], part);
      if ContainsText(s[1..], part) {
        var before: string, more: string :| s[1..] == before + part + more;
        assert s == ([s[0]] + before) + part + more;
      }
      forall before: string, more: string | s == before + part + more ensures ContainsText(s[1..], part) {
        assert before != "";
        assert s[1..] == before[1..] + part + more;
      }
    } else {
      assert forall before: string, more: string :: |before + part + more| >= |part| > 0;
    }
  }

  lemma SelectsIs(filter: CommandLineFilter, s: string)
    ensures Selects(filter, s) <==>
              match filter
              case Prefix(text) => exists more: string :: s == text + more
              case Suffix(text) => exists before: string :: s == before + text
              case Contains(text) => exists before: string, more: string :: s == before + text + more
              case Exact(text) => s == text
  {
    ContainsIs(s, filter.text);
    if filter.Prefix? && Selects(filter, s) {
      assert s == filter.text + s[|filter.text|..];
    }
    if filter.Suffix? && Selects(filter, s) {
      assert s == s[..|s| - |filter.text|] + filter.text;
    }
  }

  lemma IncludesIs(query: Query, item: Item)
    requires WholeNanoseconds(item.timestamp)
    requires WholeNanoseconds(query.notAtOrBeforeTime) && WholeNanoseconds(query.notAtOrAfterTime)
    ensures Includes(query, item) <==> Wanted(query, item)
  {
    hide AtOrBefore, Nanoseconds, Selects;
    if query.commandLineFilter.Some? {
      SelectsIs(query.commandLineFilter.value, item.commandLine);
    }
    if item.timestamp.Some? {
      if query.notAtOrBeforeTime.Some? {
        AtOrBeforeIs(item.timestamp.value, query.notAtOrBeforeTime.value);
      }
      if query.notAtOrAfterTime.Some? {
        AtOrBeforeIs(query.notAtOrAfterTime.value, item.timestamp.value);
      }
    }
  }

  lemma {:induction false} MatchingIs(query: Query, items: seq<Item>)
    ensures forall item :: item in Matching(query, items) <==> item in items && Includes(query, item)
  {
    hide Includes;
    if items != [] {
      MatchingIs(query, items[1..]);
      assert forall item :: item in items <==> item == items[0] || item in items[1..];
    }
  }

  /** Every one from the other on is younger, or older. */
  predicate InOrder(items: seq<Item>, direction: Direction) {
    forall i, j :: 0 <= i < j < |items| ==>
      if direction.Forward? then items[i].id < items[j].id else items[i].id > items[j].id
  }

  lemma {:induction false} MatchingInOrder(query: Query, items: seq<Item>)
    requires InOrder(items, query.direction)
    ensures InOrder(Matching(query, items), query.direction)
  {
    hide Includes;
    if items != [] {
      var rest := Matching(query, items[1..]);
      MatchingInOrder(query, items[1..]);
      MatchingIs(query, items[1..]);
      forall j | 0 <= j < |rest|
        ensures if query.direction.Forward? then items[0].id < rest[j].id else items[0].id > rest[j].id
      {
        assert rest[j] in rest && rest[j] in items[1..];
      }
    }
  }

  lemma ContentsInOrder(s: State, direction: Direction)
    requires Indexed(s) && SelfNamed(s)
    ensures InOrder(Inverse(Contents(s), direction), direction)
    ensures forall item :: item in Inverse(Contents(s), direction) <==> item in Contents(s)
  {
    var items := Contents(s);
    assert forall i :: 0 <= i < |items| ==> s.items[i] in s.items && items[i].id == s.items[i];
    ReversedLength(items);
    assert forall i :: 0 <= i < |items| ==> items[i] == Reversed(items)[|items| - 1 - i];
  }

  /** A search returns items of the history that are wanted, in the order of their ids, and all of
      them unless the maximum is reached. */
  lemma SearchFinds(s: State, query: Query)
    requires Indexed(s) && SelfNamed(s) && forall item :: item in Contents(s) ==> WholeNanoseconds(item.timestamp)
    requires WholeNanoseconds(query.notAtOrBeforeTime) && WholeNanoseconds(query.notAtOrAfterTime)
    ensures var r := Results(query, Ahead(s.items, query.direction, FirstIndex(s.items, query.direction)), s.idMap, 0);
            && InOrder(r, query.direction)
            && (forall item :: item in r ==> item in Contents(s) && Wanted(query, item))
            && if query.maxItems.Some? && |r| >= query.maxItems.value % 0x1_0000_0000_0000_0000
               then |r| == query.maxItems.value % 0x1_0000_0000_0000_0000
               else forall item :: item in Contents(s) && Wanted(query, item) ==> item in r
  {
    hide Matching, Results, Ahead, Indexed, SelfNamed, Includes, Wanted, Contents, Inverse;
    SearchReturns(s, query);
    var items := Inverse(Contents(s), query.direction);
    ContentsInOrder(s, query.direction);
    MatchingIs(query, items);
    MatchingInOrder(query, items);
    forall item | item in Contents(s) ensures Includes(query, item) <==> Wanted(query, item) {
      IncludesIs(query, item);
    }
  }

  lemma AheadOfAll(ids: seq<ItemId>, direction: Direction)
    ensures Ahead(ids, direction, FirstIndex(ids, direction)) == Inverse(ids, direction)
  {
    if ids != [] {
      assert ids[..|ids|] == ids && ids[0..] == ids;
    }
  }

  /** A new search has all items before it, in its order. */
  lemma VisitedInOrder(s: State, direction: Direction)
    requires Indexed(s)
    ensures var (ids, items) := (Inverse(s.items, direction), Inverse(Contents(s), direction));
            && Ahead(s.items, direction, FirstIndex(s.items, direction)) == ids
            && |items| == |ids| && forall i :: 0 <= i < |ids| ==> ids[i] in s.idMap && s.idMap[ids[i]] == items[i]
  {
    hide Reversed;
    AheadOfAll(s.items, direction);
    ReversedLength(s.items);
    ReversedLength(Contents(s));
  }

  lemma {:induction false} MatchingEverything(items: seq<Item>)
    ensures Matching(EVERYTHING, items) == items
  {
    if items != [] {
      MatchingEverything(items[1..]);
    }
  }

  /** Iterating over a history visits all its items, oldest first. */
  lemma IterationVisitsAll(s: State)
    requires Indexed(s)
    ensures Results(EVERYTHING, Ahead(s.items, Forward, FirstIndex(s.items, Forward)), s.idMap, 0) == Contents(s)
  {
    SearchReturns(s, EVERYTHING);
    MatchingEverything(Contents(s));
  }
}
