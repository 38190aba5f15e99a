/** The bookkeeping of `PublicMethods.addFields` in js/idealforms.js: the
    caller's list is reversed in place, every entry's options are stored
    under its name with defaults for what it leaves out, and its field is
    inserted into the page after an anchor field. */
module Fields {
  import opened Config

  /** One entry of the list given to `addFields`. The `title` and `markup`
      properties only build the new markup and are not modelled. */
  datatype FieldSpec = FieldSpec(
    name: string,
    filters: Option<string>,
    data: Option<map<string, string>>,
    errors: Option<map<string, string>>,
    flags: Option<string>,
    addAfter: Option<string>)

  /** The user options stored for an entry: `filters` and `flags` default
      to "", `data` and `errors` to an empty table. */
  function StoredOptions(spec: FieldSpec): (o: UserOptions)
    ensures spec.filters.Some? ==> o.filters == spec.filters.value
    ensures spec.filters.None? ==> o.filters == ""
    ensures spec.data.Some? ==> o.data == spec.data.value
    ensures spec.data.None? ==> o.data == map[]
    ensures spec.errors.Some? ==> o.errors == spec.errors.value
    ensures spec.errors.None? ==> o.errors == map[]
    ensures spec.flags.Some? ==> o.flags == spec.flags.value
    ensures spec.flags.None? ==> o.flags == ""
  {
    UserOptions(spec.filters.GetOr(""), spec.data.GetOr(map[]), spec.errors.GetOr(map[]), spec.flags.GetOr(""))
  }

  function Reversed<T>(s: seq<T>): seq<T>
  {
    if |s| == 0 then [] else Reversed(s[1..]) + [s[0]]
  }

  lemma {:induction false} ReversedAt<T>(s: seq<T>)
    ensures |Reversed(s)| == |s|
    ensures forall k :: 0 <= k < |s| ==> Reversed(s)[k] == s[|s| - 1 - k]
  {
    if |s| > 0 {
      ReversedAt(s[1..]);
    }
  }

  lemma ReversedTwice<T>(s: seq<T>)
    ensures Reversed(Reversed(s)) == s
  {
    ReversedAt(s);
    ReversedAt(Reversed(s));
  }

  /** `fields.reverse()`: reverses the caller's array in place. */
  method Reverse<T>(a: array<T>)
    modifies a
    ensures a[..] == Reversed(old(a[..]))
  {
    var n := a.Length;
    var i := 0;
    while i < n / 2
      invariant 0 <= i <= n / 2
      invariant forall k :: 0 <= k < i ==> a[k] == old(a[n - 1 - k]) && a[n - 1 - k] == old(a[k])
      invariant forall k :: i <= k < n - i ==> a[k] == old(a[k])
    {
      var t := a[i];
      a[i] := a[n - 1 - i];
      a[n - 1 - i] := t;
      i := i + 1;
    }
    ReversedAt(old(a[..]));
  }

  /** The names of a list of entries, in order. */
  function Names(specs: seq<FieldSpec>): (r: seq<string>)
    ensures |r| == |specs| && forall i :: 0 <= i < |specs| ==> r[i] == specs[i].name
  {
    if |specs| == 0 then [] else Names(specs[..|specs| - 1]) + [specs[|specs| - 1].name]
  }

  /** The options table after the entries of `specs` are stored one after
      the other; a later entry overwrites an earlier one of the same name. */
  function StoreAll(inputs: map<string, UserOptions>, specs: seq<FieldSpec>): (r: map<string, UserOptions>)
    ensures forall n :: n in r <==> n in inputs || n in Names(specs)
  {
    if |specs| == 0 then inputs
    else
      var last := specs[|specs| - 1];
      StoreAll(inputs, specs[..|specs| - 1])[last.name := StoredOptions(last)]
  }

  /** A name that no entry carries keeps its old entry, or stays absent. */
  lemma {:induction false} StoreAllKeepsOthers(inputs: map<string, UserOptions>, specs: seq<FieldSpec>, n: string)
    requires forall i :: 0 <= i < |specs| ==> specs[i].name != n
    ensures n in StoreAll(inputs, specs) <==> n in inputs
    ensures n in inputs ==> StoreAll(inputs, specs)[n] == inputs[n]
  {
    if |specs| > 0 {
      StoreAllKeepsOthers(inputs, specs[..|specs| - 1], n);
    }
  }

  /** A name some entry carries holds the options of the last such entry. */
  lemma {:induction false} StoreAllLastWins(inputs: map<string, UserOptions>, specs: seq<FieldSpec>, i: nat)
    requires i < |specs|
    requires forall j :: i < j < |specs| ==> specs[j].name != specs[i].name
    ensures specs[i].name in StoreAll(inputs, specs)
    ensures StoreAll(inputs, specs)[specs[i].name] == StoredOptions(specs[i])
  {
    var init := specs[..|specs| - 1];
    if i < |specs| - 1 {
      StoreAllLastWins(inputs, init, i);
    }
  }

  /** `addFields` stores the reversed list, so when the caller's list holds
      several entries of one name, the FIRST of them is the one kept. */
  lemma FirstEntryWins(inputs: map<string, UserOptions>, fields: seq<FieldSpec>, i: nat)
    requires i < |fields|
    requires forall j :: 0 <= j < i ==> fields[j].name != fields[i].name
    ensures var stored := StoreAll(inputs, Reversed(fields));
      fields[i].name in stored && stored[fields[i].name] == StoredOptions(fields[i])
  {
    var r := Reversed(fields);
    ReversedAt(fields);
    var k := |fields| - 1 - i;
    assert r[k] == fields[i];
    assert forall j :: k < j < |r| ==> r[j].name != fields[i].name by {
      forall j | k < j < |r| ensures r[j].name != fields[i].name {
        assert r[j] == fields[|fields| - 1 - j];
      }
    }
    StoreAllLastWins(inputs, r, k);
  }

  /** The position of the first field called `name` in the page. */
  function IndexOf(doc: seq<string>, name: string): (r: Option<nat>)
    ensures r.Some? ==> r.value < |doc| && doc[r.value] == name
    ensures r.Some? ==> forall j :: 0 <= j < r.value ==> doc[j] != name
    ensures r.None? ==> name !in doc
  {
    if |doc| == 0 then None
    else if doc[0] == name then Some(0)
    else
      match IndexOf(doc[1..], name)
      case None => None
      case Some(k) => Some(k + 1)
  }

  /** The field a new entry is inserted after: the field named by
      `addAfter` when it is given, otherwise the last field of the page at
      the time of the insertion. */
  function Anchor(doc: seq<string>, spec: FieldSpec): (k: Option<nat>)
    ensures k.Some? ==> k.value < |doc|
    ensures !NoAnchor(spec) ==> k == IndexOf(doc, spec.addAfter.value)
    ensures NoAnchor(spec) && |doc| > 0 ==> k == Some(|doc| - 1)
    ensures NoAnchor(spec) && |doc| == 0 ==> k.None?
  {
    if spec.addAfter.Some? && spec.addAfter.value != "" then IndexOf(doc, spec.addAfter.value)
    else if |doc| > 0 then Some(|doc| - 1)
    else None
  }

  /** `$field.insertAfter(addAfter)`: inserting after an empty selection
      (an anchor that is not in the page) inserts nothing. */
  function Place(doc: seq<string>, spec: FieldSpec): (r: seq<string>)
    ensures Anchor(doc, spec).None? ==> r == doc
    ensures Anchor(doc, spec).Some? ==>
      var k := Anchor(doc, spec).value;
      |r| == |doc| + 1 && r[..k + 1] == doc[..k + 1] && r[k + 1] == spec.name && r[k + 2..] == doc[k + 1..]
    ensures forall n :: n in doc ==> n in r
  {
    match Anchor(doc, spec)
    case None => doc
    case Some(k) =>
      assert doc == doc[..k + 1] + doc[k + 1..];
      doc[..k + 1] + [spec.name] + doc[k + 1..]
  }

  /** The page after the entries of `specs` are inserted one after the other. */
  function PlaceAll(doc: seq<string>, specs: seq<FieldSpec>): (r: seq<string>)
    ensures |doc| <= |r| <= |doc| + |specs|
    ensures forall n :: n in doc ==> n in r
    ensures forall n :: n in r ==> n in doc || n in Names(specs)
  {
    if |specs| == 0 then doc
    else Place(PlaceAll(doc, specs[..|specs| - 1]), specs[|specs| - 1])
  }

  predicate NoAnchor(spec: FieldSpec)
  {
    spec.addAfter.None? || spec.addAfter.value == ""
  }

  /** Without `addAfter`, an empty page has no last field to insert after,
      so nothing is ever inserted. */
  lemma {:induction false} EmptyPageInsertsNothing(specs: seq<FieldSpec>)
    requires forall i :: 0 <= i < |specs| ==> NoAnchor(specs[i])
    ensures PlaceAll([], specs) == []
  {
    if |specs| > 0 {
      EmptyPageInsertsNothing(specs[..|specs| - 1]);
    }
  }

  /** Without `addAfter`, every entry goes after the field that is last at
      that moment, which is the entry inserted just before it: the entries
      end up at the end of the page in the order they are processed. */
  lemma {:induction false} DefaultPlacementAppends(doc: seq<string>, specs: seq<FieldSpec>)
    requires |doc| > 0
    requires forall i :: 0 <= i < |specs| ==> NoAnchor(specs[i])
    ensures PlaceAll(doc, specs) == doc + Names(specs)
  {
    if |specs| > 0 {
      var init, last := specs[..|specs| - 1], specs[|specs| - 1];
      DefaultPlacementAppends(doc, init);
      var before := PlaceAll(doc, init);
      assert NoAnchor(last);
      assert Anchor(before, last) == Some(|before| - 1);
      assert Place(before, last) == before + [last.name];
    }
  }

  /** With one `addAfter` anchor shared by all entries, every entry goes
      right after the anchor, in front of the entries inserted before it:
      the entries end up after the anchor in the reverse of the order they
      are processed. */
  lemma {:induction false} SharedAnchorStacks(doc: seq<string>, specs: seq<FieldSpec>, anchor: string, k: nat)
    requires anchor != "" && IndexOf(doc, anchor) == Some(k)
    requires forall i :: 0 <= i < |specs| ==> specs[i].addAfter == Some(anchor)
    ensures IndexOf(PlaceAll(doc, specs), anchor) == Some(k)
    ensures PlaceAll(doc, specs) == doc[..k + 1] + Reversed(Names(specs)) + doc[k + 1..]
  {
    if |specs| > 0 {
      var init := specs[..|specs| - 1];
      var last := specs[|specs| - 1];
      assert specs == init + [last];
      SharedAnchorStacks(doc, init, anchor, k);
      var before := PlaceAll(doc, init);
      assert PlaceAll(doc, specs) == Place(before, last);
      assert last.addAfter == Some(anchor);
      assert Anchor(before, last) == Some(k);
      PlaceAfterAnchor(before, last, anchor, k);
      NamesSnocReversed(init, last);
      InsertBetween(before, doc[..k + 1], last.name, Reversed(Names(init)), doc[k + 1..]);
    }
  }

  /** Inserting right after the first occurrence of `anchor` keeps it the
      first occurrence. */
  lemma PlaceAfterAnchor(doc: seq<string>, spec: FieldSpec, anchor: string, k: nat)
    requires IndexOf(doc, anchor) == Some(k) && Anchor(doc, spec) == Some(k)
    ensures IndexOf(Place(doc, spec), anchor) == Some(k)
    ensures Place(doc, spec) == doc[..k + 1] + [spec.name] + doc[k + 1..]
  {
    var r := Place(doc, spec);
    assert r[..k + 1] == doc[..k + 1];
    IndexOfPrefix(doc, r, anchor, k);
  }

  /** The first occurrence depends only on the prefix up to it. */
  lemma {:induction false} IndexOfPrefix(a: seq<string>, b: seq<string>, name: string, k: nat)
    requires IndexOf(a, name) == Some(k) && k < |b| && b[..k + 1] == a[..k + 1]
    ensures IndexOf(b, name) == Some(k)
  {
    if k > 0 {
      assert a[0] == a[..k + 1][0] == b[0];
      assert a[1..][..k] == a[..k + 1][1..] == b[..k + 1][1..] == b[1..][..k];
      IndexOfPrefix(a[1..], b[1..], name, k - 1);
    } else {
      assert b[0] == b[..1][0] == a[0];
    }
  }

  /** Inserting `x` right after the prefix `p` of `p + mid + q`. */
  lemma InsertBetween(s: seq<string>, p: seq<string>, x: string, mid: seq<string>, q: seq<string>)
    requires s == p + mid + q
    ensures s[..|p|] + [x] + s[|p|..] == p + ([x] + mid) + q
  {
    assert s[..|p|] == p;
    assert s[|p|..] == mid + q;
  }

  lemma NamesSnocReversed(init: seq<FieldSpec>, last: FieldSpec)
    ensures Reversed(Names(init + [last])) == [last.name] + Reversed(Names(init))
  {
    assert (init + [last])[..|init|] == init;
    ReversedAppend(Names(init), [last.name]);
  }

  lemma {:induction false} ReversedAppend<T>(a: seq<T>, b: seq<T>)
    ensures Reversed(a + b) == Reversed(b) + Reversed(a)
  {
    ReversedAt(a);
    ReversedAt(b);
    ReversedAt(a + b);
  }

  lemma NamesReversed(specs: seq<FieldSpec>)
    ensures Names(Reversed(specs)) == Reversed(Names(specs))
  {
    ReversedAt(specs);
    ReversedAt(Names(specs));
  }

  /** Consequence for `addFields` without `addAfter` (it processes the
      reversed list): the new fields end up in the REVERSE of the caller's
      order, although the list is reversed to keep that order. */
  lemma DefaultAnchorReversesCallerOrder(doc: seq<string>, fields: seq<FieldSpec>)
    requires |doc| > 0
    requires forall i :: 0 <= i < |fields| ==> NoAnchor(fields[i])
    ensures PlaceAll(doc, Reversed(fields)) == doc + Reversed(Names(fields))
  {
    ReversedAt(fields);
    DefaultPlacementAppends(doc, Reversed(fields));
    NamesReversed(fields);
  }

  /** Consequence for `addFields` with one shared `addAfter`: the new fields
      end up right after the anchor in the caller's order. */
  lemma SharedAnchorKeepsCallerOrder(doc: seq<string>, fields: seq<FieldSpec>, anchor: string, k: nat)
    requires anchor != "" && IndexOf(doc, anchor) == Some(k)
    requires forall i :: 0 <= i < |fields| ==> fields[i].addAfter == Some(anchor)
    ensures PlaceAll(doc, Reversed(fields)) == doc[..k + 1] + Names(fields) + doc[k + 1..]
  {
    ReversedAt(fields);
    SharedAnchorStacks(doc, Reversed(fields), anchor, k);
    NamesReversed(fields);
    ReversedTwice(Names(fields));
  }
}
