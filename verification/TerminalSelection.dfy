/** Moving the selection of a terminal collection: around the page, and back. */
module TerminalSelection {
  import opened Wrappers
  import opened Json
  import opened TerminalRows
  import opened TerminalIr
  import opened TerminalState
  import opened TerminalRuns
  import ItemKeys

  /** The page a collection shows. */
  function PageShown(lib: Library, ir: Ir, s: State, d: Descriptor): (page: Page)
    requires d.declared.id in s.collections
    ensures Within(page.rows, |Items(lib, s.payload, d)|)
  {
    Select(lib, ir, s.payload, s.controls, d, s.collections[d.declared.id])
  }

  function KeysShown(lib: Library, ir: Ir, s: State, d: Descriptor): seq<string>
    requires d.declared.id in s.collections
  {
    PageShown(lib, ir, s, d).itemKeys
  }

  /** The rows of the page can be told apart: safe names, and no scalar twice. */
  ghost predicate ToldApart(lib: Library, ir: Ir, s: State, d: Descriptor)
    requires d.declared.id in s.collections
  {
    && ItemKeys.Safe(DeclaredNames(DeclaredKeys(lib, RawItems(lib, s.payload, d), d.declared.itemKey)))
    && !EqualScalars(Items(lib, s.payload, d), PageShown(lib, ir, s, d).rows)
  }

  /** What is selected of the keys on show; the first when nothing ever was. */
  function SelectedOf(s: State, id: string, keys: seq<string>): string
    requires keys != []
  {
    Lookup(s.selections, id).GetOr(keys[0])
  }

  function Moved(s: State, id: string, key: string): State {
    s.(selections := s.selections[id := key])
  }

  /**
   For rows that can be told apart, moving the selection one way and back
   restores the whole state exactly when there is nothing to select or a key of
   the page was selected: not at the start of a run, nor after a page turn.
   */
  lemma SelectionMovesBack(lib: Library, ir: Ir, s: State, d: Descriptor, direction: Direction,
      focusableIds: seq<string>)
    requires DescriptorOf(ir, d.declared.id) == Some(d) && d.declared.id in s.collections && ToldApart(lib, ir, s, d)
    ensures var id, keys := d.declared.id, KeysShown(lib, ir, s, d);
            var there := Reduce(lib, ir, s, SelectionMoved(id, direction), focusableIds);
            Reduce(lib, ir, there, SelectionMoved(id, Opposite(direction)), focusableIds) == s
            <==> keys == [] || (id in s.selections && s.selections[id] in keys)
  {
    hide Select, DescriptorOf, ToldApart, ItemKeys.Distinct, ItemKeys.Move, Reduce, KeysShown;
    var id, keys := d.declared.id, KeysShown(lib, ir, s, d);
    PageKeysAreTold(lib, ir, s, d);
    SelectionMovesTo(lib, ir, s, d, direction, focusableIds);
    if keys != [] {
      var selected := SelectedOf(s, id, keys);
      var moved := ItemKeys.Move(keys, selected, Step(direction));
      ItemKeys.SelectionCycles(keys, selected, Step(direction));
      SameKeysShown(lib, ir, s, d, moved);
      SelectionMovesTo(lib, ir, Moved(s, id, moved), d, Opposite(direction), focusableIds);
      RestoredExactly(s, id, moved, ItemKeys.Move(keys, moved, -Step(direction)));
    } else {
      SelectionMovesTo(lib, ir, s, d, Opposite(direction), focusableIds);
    }
  }

  function Opposite(direction: Direction): (opposite: Direction)
    ensures Step(opposite) == -Step(direction)
  {
    if direction.Forth? then Back else Forth
  }

  lemma RestoredExactly(s: State, id: string, moved: string, back: string)
    ensures Moved(Moved(s, id, moved), id, back) == s <==> Lookup(s.selections, id) == Some(back)
  {
    assert s.selections[id := moved][id := back] == s.selections[id := back];
    if Lookup(s.selections, id) == Some(back) {
      assert s.selections[id := back] == s.selections;
    }
  }

  lemma PageKeysAreTold(lib: Library, ir: Ir, s: State, d: Descriptor)
    requires d.declared.id in s.collections && ToldApart(lib, ir, s, d)
    ensures ItemKeys.Distinct(KeysShown(lib, ir, s, d))
  {
    hide Select, ItemKeys.Safe, ItemKeys.Distinct, EqualScalars;
    PageKeysAreDistinct(lib, ir, s.payload, s.controls, d, s.collections[d.declared.id]);
  }

  /** What is on show does not depend on what is selected. */
  lemma SameKeysShown(lib: Library, ir: Ir, s: State, d: Descriptor, key: string)
    requires d.declared.id in s.collections
    ensures KeysShown(lib, ir, Moved(s, d.declared.id, key), d) == KeysShown(lib, ir, s, d)
  {
    hide Select;
  }

  lemma SelectionMovesTo(lib: Library, ir: Ir, s: State, d: Descriptor, direction: Direction, focusableIds: seq<string>)
    requires DescriptorOf(ir, d.declared.id) == Some(d) && d.declared.id in s.collections
    ensures var id, keys := d.declared.id, KeysShown(lib, ir, s, d);
            Reduce(lib, ir, s, SelectionMoved(id, direction), focusableIds)
            == if keys == [] then s
               else Moved(s, id, ItemKeys.Move(keys, SelectedOf(s, id, keys), Step(direction)))
  {
    hide Select, DescriptorOf, ItemKeys.Move;
  }

  /** `k` selection moves. */
  function MovesOf(id: string, direction: Direction, k: nat): (events: seq<Event>)
    ensures |events| == k
  {
    if k == 0 then [] else MovesOf(id, direction, k - 1) + [Event(SelectionMoved(id, direction), [])]
  }

  /** What `k` moves of the reducer select. */
  lemma {:induction false} SelectionRun(lib: Library, ir: Ir, s: State, d: Descriptor, direction: Direction, k: nat)
    requires DescriptorOf(ir, d.declared.id) == Some(d) && d.declared.id in s.collections
    requires KeysShown(lib, ir, s, d) != [] && k >= 1
    ensures var id, keys := d.declared.id, KeysShown(lib, ir, s, d);
            Run(lib, ir, s, MovesOf(id, direction, k))
            == Moved(s, id, ItemKeys.Moves(keys, SelectedOf(s, id, keys), Step(direction), k))
  {
    hide Select, DescriptorOf, ItemKeys.Move, Reduce, KeysShown, Run;
    var id, keys := d.declared.id, KeysShown(lib, ir, s, d);
    var selected := SelectedOf(s, id, keys);
    RunOne(lib, ir, s, MovesOf(id, direction, k - 1), Event(SelectionMoved(id, direction), []));
    if k == 1 {
      RunNothing(lib, ir, s);
      SelectionMovesTo(lib, ir, s, d, direction, []);
      assert ItemKeys.Moves(keys, selected, Step(direction), 0) == selected;
    } else {
      SelectionRun(lib, ir, s, d, direction, k - 1);
      SelectionStep(lib, ir, s, d, direction, ItemKeys.Moves(keys, selected, Step(direction), k - 1));
    }
  }

  lemma SelectionStep(lib: Library, ir: Ir, s: State, d: Descriptor, direction: Direction, selected: string)
    requires DescriptorOf(ir, d.declared.id) == Some(d) && d.declared.id in s.collections
    requires KeysShown(lib, ir, s, d) != []
    ensures var id, keys := d.declared.id, KeysShown(lib, ir, s, d);
            Reduce(lib, ir, Moved(s, id, selected), SelectionMoved(id, direction), [])
            == Moved(s, id, ItemKeys.Move(keys, selected, Step(direction)))
  {
    hide Select, DescriptorOf, ItemKeys.Move, Reduce, KeysShown;
    var id, keys := d.declared.id, KeysShown(lib, ir, s, d);
    SameKeysShown(lib, ir, s, d, selected);
    SelectionMovesTo(lib, ir, Moved(s, id, selected), d, direction, []);
    var moved := ItemKeys.Move(keys, selected, Step(direction));
    assert s.selections[id := selected][id := moved] == s.selections[id := moved];
  }

  /**
   From any state, as many moves as the page has keys select each of them, and
   end on the key the selection counted as.
   */
  lemma SelectionVisitsPage(lib: Library, ir: Ir, s: State, d: Descriptor, direction: Direction)
    requires DescriptorOf(ir, d.declared.id) == Some(d) && d.declared.id in s.collections && ToldApart(lib, ir, s, d)
    ensures var id, keys := d.declared.id, KeysShown(lib, ir, s, d);
            if keys == [] then Run(lib, ir, s, MovesOf(id, direction, 1)) == s
            else
              && Run(lib, ir, s, MovesOf(id, direction, |keys|))
                  == Moved(s, id, ItemKeys.Effective(keys, SelectedOf(s, id, keys)))
              && forall key :: key in keys ==> SelectedOnTheWay(lib, ir, s, id, direction, key, |keys|)
  {
    hide Select, DescriptorOf, ToldApart, ItemKeys.Distinct, ItemKeys.Moves, ItemKeys.Move, Run, Reduce, KeysShown;
    var id, keys := d.declared.id, KeysShown(lib, ir, s, d);
    if keys == [] {
      RunNothing(lib, ir, s);
      RunOne(lib, ir, s, [], Event(SelectionMoved(id, direction), []));
      SelectionMovesTo(lib, ir, s, d, direction, []);
      assert MovesOf(id, direction, 0) == [];
    } else {
      var selected := SelectedOf(s, id, keys);
      PageKeysAreTold(lib, ir, s, d);
      ItemKeys.SelectionCycles(keys, selected, Step(direction));
      SelectionRun(lib, ir, s, d, direction, |keys|);
      forall key | key in keys
        ensures SelectedOnTheWay(lib, ir, s, id, direction, key, |keys|)
      {
        assert ItemKeys.Visits(keys, selected, Step(direction), key);
        var k: nat :| 1 <= k <= |keys| && ItemKeys.Moves(keys, selected, Step(direction), k) == key;
        SelectionRun(lib, ir, s, d, direction, k);
      }
    }
  }

  /** The key is selected after one of the first `n` moves. */
  ghost predicate SelectedOnTheWay(lib: Library, ir: Ir, s: State, id: string, direction: Direction, key: string,
      n: nat) {
    exists k: nat :: 1 <= k <= n && Lookup(Run(lib, ir, s, MovesOf(id, direction, k)).selections, id) == Some(key)
  }
}
