/** The selection side of the dialog: the list selectedDatasources that
    updateDatasourceList toggles names in, and the worksheets the ready
    handler offers as radio items. */
module Selection {
  import opened Seqs
  import opened Sheets

  /** selectedDatasources after updateDatasourceList(id): an absent id is
      pushed at the end, a present one is spliced out where indexOf finds it. */
  function Toggled(selected: seq<string>, id: string): (r: seq<string>)
    ensures |r| == if id in selected then |selected| - 1 else |selected| + 1
    ensures id !in selected ==> r[|selected|] == id
  {
    var idIndex := IndexOf(selected, id);
    if idIndex < 0 then selected + [id] else selected[..idIndex] + selected[idIndex + 1..]
  }

  /** A toggle touches only id: every other name keeps its presence and its
      place relative to the other names. */
  lemma ToggleKeepsOthers(selected: seq<string>, id: string)
    ensures Without(Toggled(selected, id), id) == Without(selected, id)
    ensures forall y :: y != id ==> (y in Toggled(selected, id) <==> y in selected)
  {
    var i := IndexOf(selected, id);
    if i < 0 {
      WithoutAppended(selected, id);
    } else {
      WithoutSpliced(selected, id, i);
    }
  }

  lemma WithoutAppended(s: seq<string>, id: string)
    ensures Without(s + [id], id) == Without(s, id)
  {
    WithoutConcat(s, [id], id);
    assert Without([id], id) == [];
    assert Without(s, id) + [] == Without(s, id);
  }

  lemma WithoutSpliced(s: seq<string>, id: string, i: nat)
    requires i < |s| && s[i] == id
    ensures Without(s[..i] + s[i + 1..], id) == Without(s, id)
  {
    var a, b := s[..i], s[i + 1..];
    assert s == (a + [id]) + b;
    WithoutConcat(a + [id], b, id);
    WithoutAppended(a, id);
    WithoutConcat(a, b, id);
  }

  /** On a list without duplicates a toggle flips the membership of id,
      changes the length by one and leaves no duplicates. */
  lemma ToggleFlips(selected: seq<string>, id: string)
    requires NoDup(selected)
    ensures NoDup(Toggled(selected, id))
    ensures id in Toggled(selected, id) <==> id !in selected
    ensures |Toggled(selected, id)| == if id in selected then |selected| - 1 else |selected| + 1
  {
    var i := IndexOf(selected, id);
    if 0 <= i {
      var r := Toggled(selected, id);
      forall j | 0 <= j < |r| ensures r[j] == if j < i then selected[j] else selected[j + 1] {
      }
      assert id !in r by {
        forall j | 0 <= j < |r| ensures r[j] != id {
        }
      }
    }
  }

  /** Clicks only toggle rendered names, so a selection of rendered names
      stays one. */
  lemma ToggleStaysWithin(selected: seq<string>, id: string, rendered: seq<string>)
    requires forall x :: x in selected ==> x in rendered
    requires id in rendered
    ensures forall x :: x in Toggled(selected, id) ==> x in rendered
  {
    ToggleKeepsOthers(selected, id);
  }

  /** Toggling an absent name twice gives back the very same list. */
  lemma ToggleTwiceAbsent(selected: seq<string>, id: string)
    requires id !in selected
    ensures Toggled(Toggled(selected, id), id) == selected
  {
    var once := selected + [id];
    IndexOfAppend(selected, id, id);
    assert once[..|selected|] == selected;
  }

  /** Toggling a present name twice gives the same names, but the name now
      comes last. */
  lemma ToggleTwicePresent(selected: seq<string>, id: string)
    requires NoDup(selected) && id in selected
    ensures Toggled(Toggled(selected, id), id) == Without(selected, id) + [id]
    ensures forall y :: y in Toggled(Toggled(selected, id), id) <==> y in selected
  {
    WithoutNoDup(selected, id);
    ToggleFlips(selected, id);
  }

  /** The names that contain the marker, in dashboard order, repeats kept. */
  function Starred(worksheets: seq<Worksheet>): (names: seq<string>)
  {
    if |worksheets| == 0 then []
    else
      var last := worksheets[|worksheets| - 1].name;
      Starred(worksheets[..|worksheets| - 1]) + if Marker in last then [last] else []
  }

  /** visibleDatasources after the forEach of the ready handler. */
  function VisibleNames(worksheets: seq<Worksheet>): seq<string> {
    Distinct(Starred(worksheets))
  }

  lemma NamesSnoc(worksheets: seq<Worksheet>)
    requires |worksheets| > 0
    ensures Names(worksheets) == Names(worksheets[..|worksheets| - 1]) + [worksheets[|worksheets| - 1].name]
  {
  }

  /** A name is starred exactly when some worksheet has it and it holds the marker. */
  lemma {:induction false} StarredMembers(worksheets: seq<Worksheet>)
    ensures forall x :: x in Starred(worksheets) <==> x in Names(worksheets) && Marker in x
  {
    if |worksheets| > 0 {
      StarredMembers(worksheets[..|worksheets| - 1]);
      NamesSnoc(worksheets);
    }
  }

  /** Starred lists names in the order of their first worksheet. */
  lemma {:induction false} StarredOrder(worksheets: seq<Worksheet>, x: string, y: string)
    requires x in Starred(worksheets) && y in Starred(worksheets)
    requires IndexOf(Starred(worksheets), x) < IndexOf(Starred(worksheets), y)
    ensures IndexOf(Names(worksheets), x) < IndexOf(Names(worksheets), y)
  {
    var n := |worksheets| - 1;
    var pre, last := worksheets[..n], worksheets[n].name;
    var sp, np := Starred(pre), Names(pre);
    NamesSnoc(worksheets);
    StarredMembers(pre);
    IndexOfAppend(np, last, x);
    IndexOfAppend(np, last, y);
    if Marker in last {
      IndexOfAppend(sp, last, x);
      IndexOfAppend(sp, last, y);
      if y in sp {
        StarredOrder(pre, x, y);
      }
    } else {
      assert Starred(worksheets) == sp + [];
      assert sp + [] == sp;
      StarredOrder(pre, x, y);
    }
  }

  /** The visible list holds each marked worksheet name once, and nothing
      else, in the order of first occurrence on the dashboard. */
  lemma VisibleNamesSpec(worksheets: seq<Worksheet>)
    ensures NoDup(VisibleNames(worksheets))
    ensures forall x :: x in VisibleNames(worksheets) <==> x in Names(worksheets) && Marker in x
    ensures var v := VisibleNames(worksheets);
      forall i, j :: 0 <= i < j < |v| ==> IndexOf(Names(worksheets), v[i]) < IndexOf(Names(worksheets), v[j])
  {
    var s, v := Starred(worksheets), VisibleNames(worksheets);
    StarredMembers(worksheets);
    DistinctOrder(s);
    forall i, j | 0 <= i < j < |v|
      ensures IndexOf(Names(worksheets), v[i]) < IndexOf(Names(worksheets), v[j])
    {
      StarredOrder(worksheets, v[i], v[j]);
    }
  }

  /** A radio item the ready handler adds: id and value are the name, the
      label is the name without its first marker, and it starts checked when
      the name is in the selection. */
  datatype Item = Item(name: string, labelText: string, checked: bool)

  /** One round of the ready handler's forEach on the visible list. */
  lemma VisibleStep(worksheets: seq<Worksheet>, k: nat)
    requires k < |worksheets|
    ensures var v, name := VisibleNames(worksheets[..k]), worksheets[k].name;
      VisibleNames(worksheets[..k + 1]) == if name !in v && Marker in name then v + [name] else v
  {
    var name := worksheets[k].name;
    assert worksheets[..k + 1][..k] == worksheets[..k];
    DistinctAppend(Starred(worksheets[..k]), name);
    assert Starred(worksheets[..k]) + [] == Starred(worksheets[..k]);
  }

  /** The item rendered for a name, checked when the selection holds it. */
  function ItemFor(name: string, selected: seq<string>): Item {
    Item(name, Label(name), name in selected)
  }

  /** Items rendered, in order, for the names listed so far. */
  ghost predicate RenderedFor(items: seq<Item>, names: seq<string>, selected: seq<string>) {
    |items| == |names| && forall i :: 0 <= i < |items| ==> items[i] == ItemFor(names[i], selected)
  }

  lemma RenderedSnoc(items: seq<Item>, names: seq<string>, name: string, selected: seq<string>)
    requires RenderedFor(items, names, selected)
    ensures RenderedFor(items + [ItemFor(name, selected)], names + [name], selected)
  {
  }

  /** The forEach of the ready handler over the dashboard's worksheets. */
  method SeedItems(worksheets: seq<Worksheet>, selected: seq<string>)
    returns (visibleDatasources: seq<string>, items: seq<Item>)
    ensures visibleDatasources == VisibleNames(worksheets)
    ensures |items| == |visibleDatasources|
    ensures forall i :: 0 <= i < |items| ==> items[i] == ItemFor(visibleDatasources[i], selected)
  {
    visibleDatasources, items := [], [];
    for k := 0 to |worksheets|
      invariant visibleDatasources == VisibleNames(worksheets[..k])
      invariant RenderedFor(items, visibleDatasources, selected)
    {
      var worksheet := worksheets[k];
      var isActive := IndexOf(selected, worksheet.name) >= 0;
      VisibleStep(worksheets, k);
      // the source combines the two tests with a bitwise '&', which for two
      // booleans without side effects decides the same as '&&'
      if IndexOf(visibleDatasources, worksheet.name) < 0 && Marker in worksheet.name {
        var item := Item(worksheet.name, Label(worksheet.name), isActive);
        assert item == ItemFor(worksheet.name, selected);
        RenderedSnoc(items, visibleDatasources, worksheet.name, selected);
        items := items + [item];
        visibleDatasources := visibleDatasources + [worksheet.name];
      }
    }
    assert worksheets[..|worksheets|] == worksheets;
  }
}
