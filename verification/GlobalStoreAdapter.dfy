/** The adapter itself: three backings, one surface. Each thread has a turn of its
    own, kept under the thread's name the way a thread-local keeps it. */
module GlobalStoreAdapter {
  import opened Wrappers
  import opened LegacyBag
  import opened GlobalPaths
  import opened GlobalStore

  type Thread = nat

  datatype Refusal = ValueError | NestedTurn | DaemonLocked

  /** The commander's store as the adapter relies on it, one method per call. A method
      runs when the FIFO lock reaches its caller, so every one of them asks that no
      other thread holds it; all but the refusing `EnterAll` ask that the caller does
      not hold it either, for it would wait for itself. */
  class CoreStore {
    var master: Dict
    var holder: Option<Thread>

    constructor (d: Dict)
      ensures master == d && holder == None
    {
      master, holder := d, None;
    }

    method EnterAll(me: Thread, up: bool) returns (r: Result<Dict, Refusal>)
      requires holder == None || holder == Some(me)
      modifies this`holder
      ensures old(holder) == Some(me) ==> r == Err(NestedTurn) && holder == old(holder)
      ensures old(holder) == None && !up ==> r == Err(DaemonLocked) && holder == None
      ensures old(holder) == None && up ==> r == Ok(master) && holder == Some(me)
    {
      if holder == Some(me) { return Err(NestedTurn); }
      if !up { return Err(DaemonLocked); }
      holder := Some(me);
      r := Ok(master);
    }

    method ExitAll(me: Thread, copy: Option<Dict>, landed: bool)
      requires holder == Some(me)
      modifies this
      ensures holder == None
      ensures master == if copy.Some? && landed then copy.value else old(master)
    {
      if copy.Some? && landed { master := copy.value; }
      holder := None;
    }

    method EnterKey(me: Thread, key: string) returns (found: Option<Value>)
      requires holder == None
      modifies this`holder
      ensures holder == Some(me)
      ensures found == if key in master then Some(master[key]) else None
    {
      holder := Some(me);
      found := if key in master then Some(master[key]) else None;
    }

    method ExitKey(me: Thread, key: string, publish: Option<Value>)
      requires holder == Some(me)
      modifies this
      ensures holder == None
      ensures master == if publish.Some? then old(master)[key := publish.value] else old(master)
    {
      if publish.Some? { master := master[key := publish.value]; }
      holder := None;
    }

    method GetKey(key: string) returns (found: Option<Value>)
      requires holder == None
      ensures found == if key in master then Some(master[key]) else None
    {
      found := if key in master then Some(master[key]) else None;
    }

    method SetKey(key: string, value: Value)
      requires holder == None
      modifies this`master
      ensures master == old(master)[key := value]
    {
      master := master[key := value];
    }

    method DeleteKey(key: string)
      requires holder == None
      modifies this`master
      ensures master == old(master) - {key}
    {
      master := master - {key};
    }
  }

  class GlobalStoreAdapter {
    const site: Site
    var core: CoreStore?
    var localBag: seq<Node>
    var turns: map<Thread, Dict>

    /** Whoever has a turn here holds the commander's lock. */
    ghost predicate Valid()
      reads this, core
    {
      if core == null then turns == map[] else forall t <- turns :: core.holder == Some(t)
    }

    /** The lock, if it is needed, has reached this thread: outside a turn of its own it is free. */
    ghost predicate Reached(me: Thread)
      reads this, core
    {
      core != null ==> core.holder == if me in turns then Some(me) else None
    }

    constructor (site: Site)
      ensures Valid() && core == null && localBag == [] && turns == map[] && this.site == site
    {
      this.site := site;
      core, localBag, turns := null, [], map[];
    }

    /** A worker arrives: the commander alone answers from now on, and what the local
        Bag held is not uploaded. */
    method Attach(store: CoreStore)
      requires Valid() && core == null
      modifies this`core
      ensures Valid() && core == store && turns == map[] && localBag == old(localBag)
    {
      core := store;
    }

    method OpenTurn(me: Thread, up: bool) returns (refused: Option<Refusal>)
      requires Valid() && Reached(me)
      modifies this`turns, core
      ensures Valid() && localBag == old(localBag)
      ensures core != null ==> core.master == old(core.master)
      ensures refused == if core == null then Some(DaemonLocked)
                         else if me in old(turns) then Some(NestedTurn)
                         else if !up then Some(DaemonLocked)
                         else None
      ensures refused.Some? ==> turns == old(turns) && (core != null ==> core.holder == old(core.holder))
      ensures refused.None? ==> turns == old(turns)[me := core.master] && core.holder == Some(me)
    {
      if core == null { return Some(DaemonLocked); }
      var lease := core.EnterAll(me, up);
      match lease
      case Err(why) => return Some(why);
      case Ok(copy) =>
        turns := turns[me := copy];
        return None;
    }

    /** The thread's turn is cleared first, so a commit that fails leaves none behind. */
    method CloseTurn(me: Thread, raised: bool, landed: bool)
      requires Valid() && me in turns
      modifies this`turns, core
      ensures Valid() && localBag == old(localBag)
      ensures turns == old(turns) - {me}
      ensures core.holder == None
      ensures core.master == if !raised && landed then WireAll(old(turns)[me], site) else old(core.master)
    {
      var copy := turns[me];
      turns := turns - {me};
      if raised {
        core.ExitAll(me, None, landed);
      } else {
        var wired := Wired(copy);
        core.ExitAll(me, Some(wired), landed);
      }
    }

    method Wired(copy: Dict) returns (wired: Dict)
      ensures wired == WireAll(copy, site)
    {
      wired := copy;
      var left := copy.Keys;
      while left != {}
        invariant left <= copy.Keys && wired.Keys == copy.Keys
        invariant forall k <- copy.Keys :: wired[k] == if k in left then copy[k] else Wire(copy[k], site)
      {
        var key :| key in left;
        wired := wired[key := Wire(copy[key], site)];
        left := left - {key};
      }
    }

    /** Reads what the thread is entitled to see: its own turn, the local Bag before a
        worker attaches, the master otherwise. No path is the whole store. */
    method GetGlobalItem(me: Thread, path: string, default: Value) returns (v: Value, ghost order: seq<string>)
      requires Valid() && Reached(me)
      modifies core
      ensures Valid() && Reached(me)
      ensures core != null ==> core.master == old(core.master)
      ensures path != "" && me in turns ==> v == ReadIn(turns[me], path, default, site)
      ensures path != "" && core == null ==> v == Legacy(GetItem(localBag, Labels(path, site), default), site)
      ensures path != "" && me !in turns && core != null ==> v == ReadIn(core.master, path, default, site)
      ensures path == "" && me in turns ==>
                Enumerates(order, turns[me]) && v == Bag(SnapshotOf(turns[me], order, site))
      ensures path == "" && core == null ==> v == Bag(LegacyNodes(localBag, site))
      ensures path == "" && me !in turns && core != null ==>
                Enumerates(order, core.master) && v == Bag(SnapshotOf(core.master, order, site))
    {
      order := [];
      if path == "" {
        var nodes;
        nodes, order := StoreBag(me);
        return Bag(nodes), order;
      }
      var key, rest := Key(path), Rest(path);
      if me in turns {
        if key !in turns[me] { return default, order; }
        return LegacyRead(turns[me][key], rest, default), order;
      }
      if core == null { return Legacy(GetItem(localBag, Labels(path, site), default), site), order; }
      var found := core.GetKey(key);
      if found == None { return default, order; }
      return LegacyRead(found.value, rest, default), order;
    }

    function LegacyRead(value: Value, rest: string, default: Value): Value {
      if rest == "" then Legacy(value, site)
      else if !value.Bag? then default
      else Legacy(GetItem(value.nodes, Labels(rest, site), default), site)
    }

    method SetGlobalItem(me: Thread, path: string, value: Value) returns (refused: Option<Refusal>)
      requires Valid() && Reached(me)
      modifies this`turns, this`localBag, core
      ensures Valid() && Reached(me)
      ensures refused == if path == "" then Some(ValueError) else None
      ensures localBag == if me !in old(turns) && core == null
                          then LocalWrite(old(localBag), Set(path, value), site) else old(localBag)
      ensures turns == if me in old(turns)
                       then old(turns)[me := ApplyInBlock(old(turns)[me], Set(path, value), site)]
                       else old(turns)
      ensures core != null ==>
                core.master == if me in old(turns) then old(core.master)
                               else ApplyDirect(old(core.master), Set(path, value), site)
    {
      if path == "" { return Some(ValueError); }
      refused := None;
      var key, rest := Key(path), Rest(path);
      if me in turns {
        turns := turns[me := WriteInto(turns[me], key, rest, value)];
      } else if core == null {
        localBag := SetItem(localBag, Labels(path, site), Legacy(value, site));
      } else if rest == "" {
        core.SetKey(key, Wire(value, site));
      } else {
        var found := core.EnterKey(me, key);
        var nodes := if found.Some? && found.value.Bag? then found.value.nodes else [];
        core.ExitKey(me, key, Some(Bag(SetItem(nodes, Labels(rest, site), value))));
      }
    }

    function WriteInto(content: Dict, key: string, rest: string, value: Value): Dict {
      if rest == "" then content[key := Wire(Legacy(value, site), site)]
      else
        var nodes := if key in content && content[key].Bag? then content[key].nodes else [];
        content[key := Bag(SetItem(nodes, Labels(rest, site), Legacy(value, site)))]
    }

    method DeleteGlobalItem(me: Thread, path: string) returns (refused: Option<Refusal>)
      requires Valid() && Reached(me)
      modifies this`turns, this`localBag, core
      ensures Valid() && Reached(me)
      ensures refused == if path == "" then Some(ValueError) else None
      ensures localBag == if me !in old(turns) && core == null
                          then LocalWrite(old(localBag), Delete(path), site) else old(localBag)
      ensures turns == if me in old(turns)
                       then old(turns)[me := ApplyInBlock(old(turns)[me], Delete(path), site)]
                       else old(turns)
      ensures core != null ==>
                core.master == if me in old(turns) then old(core.master)
                               else ApplyDirect(old(core.master), Delete(path), site)
    {
      if path == "" { return Some(ValueError); }
      refused := None;
      var key, rest := Key(path), Rest(path);
      if me in turns {
        turns := turns[me := DeleteFrom(turns[me], key, rest)];
      } else if core == null {
        localBag := DelItem(localBag, Labels(path, site));
      } else if rest == "" {
        core.DeleteKey(key);
      } else {
        var found := core.EnterKey(me, key);
        if found == None || !found.value.Bag? {
          core.ExitKey(me, key, None);
        } else {
          core.ExitKey(me, key, Some(Bag(DelItem(found.value.nodes, Labels(rest, site)))));
        }
      }
    }

    function DeleteFrom(content: Dict, key: string, rest: string): Dict {
      if rest == "" then content - {key}
      else if key in content && content[key].Bag? then
        content[key := Bag(DelItem(content[key].nodes, Labels(rest, site)))]
      else content
    }

    /** The whole store as one Bag: a snapshot that publishes nothing. `order` is the
        order in which the dictionary was walked. */
    method StoreBag(me: Thread) returns (nodes: seq<Node>, ghost order: seq<string>)
      requires Valid() && Reached(me)
      modifies core
      ensures Valid() && Reached(me)
      ensures core != null ==> core.master == old(core.master)
      ensures me in turns ==> Enumerates(order, turns[me]) && nodes == SnapshotOf(turns[me], order, site)
      ensures core == null ==> nodes == LegacyNodes(localBag, site)
      ensures me !in turns && core != null ==>
                Enumerates(order, core.master) && nodes == SnapshotOf(core.master, order, site)
    {
      order := [];
      if me in turns {
        nodes, order := AsLegacyBag(turns[me]);
      } else if core == null {
        nodes := LegacyNodes(localBag, site);
      } else {
        var whole := core.EnterAll(me, true);
        nodes, order := AsLegacyBag(whole.value);
        core.ExitAll(me, None, true);
      }
    }

    method AsLegacyBag(content: Dict) returns (nodes: seq<Node>, ghost order: seq<string>)
      ensures Enumerates(order, content) && nodes == SnapshotOf(content, order, site)
    {
      nodes, order := [], [];
      var left := content.Keys;
      while left != {}
        invariant left <= content.Keys
        invariant forall k :: k in order <==> k in content && k !in left
        invariant forall i, j :: 0 <= i < j < |order| ==> order[i] != order[j]
        invariant nodes == SnapshotOf(content, order, site)
      {
        var key :| key in left;
        assert (order + [key])[..|order|] == order;
        nodes := SetItem(nodes, Labels(key, site), Legacy(content[key], site));
        order := order + [key];
        left := left - {key};
      }
    }
  }
}
