/** What one name is bound to, and the operations on a binding. */
module Variables {
  import opened Ascii
  import I = IndexedArray
  import opened Option

  datatype Attr =
    | Export | Readonly | ArrayAttr | Integer | Local | AssocAttr | Trace | Uppercase | Lowercase | Capcase | Nameref

  datatype Entry = Entry(value: string, hasValue: bool, exported: bool, readonly: bool, attrs: set<Attr>)

  const DEFAULT_ENTRY := Entry("", false, false, false, {})

  datatype Binding = Binding(
    entry: Option<Entry>, indexed: Option<I.Hybrid>, assoc: Option<map<string, string>>, nameref: Option<string>)

  const ABSENT := Binding(None, None, None, None)

  datatype Kind = Unset | Scalar | Indexed | Assoc | Reference

  predicate IsReadonly(b: Binding) {
    b.entry.Some? && (b.entry.value.readonly || Readonly in b.entry.value.attrs)
  }

  /** The flag and the attribute agree; code that looks at only one of them relies on it. */
  predicate Consistent(b: Binding) {
    b.entry.Some? ==> (b.entry.value.readonly <==> Readonly in b.entry.value.attrs)
  }

  /** Neither readonly nor half readonly. */
  predicate Free(b: Binding) {
    !IsReadonly(b) && Consistent(b)
  }

  function AttrsOf(b: Binding): set<Attr> {
    if b.entry.Some? then b.entry.value.attrs else {}
  }

  predicate IsExported(b: Binding) {
    b.entry.Some? && b.entry.value.exported
  }

  function ValueOf(b: Binding): Option<string> {
    if b.entry.Some? && b.entry.value.hasValue then Some(b.entry.value.value) else None
  }

  function KindOf(b: Binding): Kind {
    if b.nameref.Some? then Reference
    else if AssocAttr in AttrsOf(b) then Assoc
    else if ArrayAttr in AttrsOf(b) then Indexed
    else if b.assoc.Some? then Assoc
    else if b.indexed.Some? then Indexed
    else if b.entry.Some? then Scalar
    else Unset
  }

  function ToUpper(c: char): char {
    if IsLower(c) then c - ' ' else c
  }

  function MapText(s: string, f: char -> char): string {
    seq(|s|, i requires 0 <= i < |s| => f(s[i]))
  }

  /** The case attributes, applied to a value on its way in. */
  function Recase(value: string, attrs: set<Attr>): string {
    var upper := if Uppercase in attrs then MapText(value, ToUpper) else value;
    var lower := if Lowercase in attrs then MapText(upper, ToLower) else upper;
    if Capcase in attrs && lower != "" then [ToUpper(lower[0])] + MapText(lower[1..], ToLower) else lower
  }

  /** A whole new indexed array. */
  function WithArray(b: Binding, values: seq<string>): Binding {
    var recased := seq(|values|, i requires 0 <= i < |values| => Recase(values[i], AttrsOf(b)));
    b.(entry := Some(Entry(if recased == [] then "" else recased[0], recased != [], false, false, {ArrayAttr})),
       indexed := Some(I.FromValues(recased)))
  }

  /** One element of an indexed array; a scalar becomes element 0 of a new one. */
  function WithElement(b: Binding, index: int, value: string): Binding {
    var attrs := AttrsOf(b);
    var seeds := b.indexed.None? && ValueOf(b).Some? && ArrayAttr !in attrs && AssocAttr !in attrs;
    var before := if b.indexed.Some? then b.indexed.value
                  else if seeds then I.Inserted(I.EMPTY, 0, ValueOf(b).value)
                  else I.EMPTY;
    var after := I.Inserted(before, index, Recase(value, attrs));
    var zero := I.Lookup(after, 0);
    b.(entry := if index == 0 || ArrayAttr !in attrs
                then Some(Entry(if zero.Some? then zero.value else "", zero.Some?,
                                IsExported(b), false, attrs + {ArrayAttr}))
                else b.entry,
       indexed := Some(after))
  }

  /** One element of an associative array. */
  function WithKey(b: Binding, key: string, value: string): Binding {
    var attrs := AttrsOf(b);
    var after := (if b.assoc.Some? then b.assoc.value else map[])[key := Recase(value, attrs)];
    b.(entry := if key == "0" || AssocAttr !in attrs
                then Some(Entry(if "0" in after then after["0"] else "", "0" in after,
                                IsExported(b), false, attrs + {AssocAttr}))
                else b.entry,
       assoc := Some(after))
  }

  /** Removes an element; `index` is `key` read as a number. */
  function WithoutKey(b: Binding, key: string, index: Option<int>): Binding {
    if b.assoc.Some? then
      var after := b.assoc.value - {key};
      b.(entry := if key == "0" && b.entry.Some?
                  then Some(b.entry.value.(value := "", hasValue := false, attrs := b.entry.value.attrs + {AssocAttr}))
                  else b.entry,
         assoc := Some(after))
    else if b.indexed.Some? && index.Some? then
      var after := I.Removed(b.indexed.value, index.value);
      var zero := I.Lookup(after, 0);
      b.(entry := if b.entry.Some?
                  then Some(b.entry.value.(value := if zero.Some? then zero.value else "", hasValue := zero.Some?,
                                           attrs := b.entry.value.attrs + {ArrayAttr}))
                  else None,
         indexed := Some(after))
    else b
  }

  /** Turns one attribute on or off; becoming an array takes the scalar along and drops the other kind of array. */
  function WithAttr(b: Binding, attr: Attr, on: bool): Binding {
    var prior := if b.entry.Some? then b.entry.value else DEFAULT_ENTRY;
    var attrs := if on then prior.attrs + {attr} else prior.attrs - {attr};
    var kept := if attr == ArrayAttr && on then attrs - {AssocAttr}
                else if attr == AssocAttr && on then attrs - {ArrayAttr}
                else attrs;
    var entry := prior.(attrs := kept,
                      exported := if attr == Export then on else prior.exported,
                      readonly := if attr == Readonly then on else prior.readonly);
    Binding(
      Some(entry),
      if attr == ArrayAttr && on && b.indexed.None? && ArrayAttr !in prior.attrs && prior.hasValue
      then Some(I.Inserted(I.EMPTY, 0, prior.value))
      else if attr == AssocAttr && on then None else b.indexed,
      if attr == AssocAttr && on && b.assoc.None? && AssocAttr !in prior.attrs && prior.hasValue
      then Some(map["0" := prior.value])
      else if attr == ArrayAttr && on then None else b.assoc,
      if attr == Nameref && !on then None
      else if attr == Nameref && b.nameref.None? && prior.hasValue then Some(prior.value) else b.nameref)
  }

  /** Marks for export, keeping the value. */
  function WithExport(b: Binding): Binding {
    var value := ValueOf(b);
    b.(entry := Some(Entry(if value.Some? then value.value else "", value.Some?, true,
                           b.entry.Some? && b.entry.value.readonly, AttrsOf(b) + {Export})))
  }

  /** A scalar assignment to a name that refers to nothing else. */
  function WithValue(b: Binding, value: string): Binding {
    var attrs := AttrsOf(b);
    if AssocAttr in attrs then WithKey(b, "0", value)
    else if ArrayAttr in attrs then WithElement(b, 0, value)
    else b.(entry := Some(Entry(Recase(value, attrs), true, IsExported(b),
                                b.entry.Some? && b.entry.value.readonly, attrs)))
  }

  /** A nameref that has no target yet takes the value as its target. */
  function WithTarget(b: Binding, target: string): Binding {
    b.(entry := Some(Entry(target, true, IsExported(b), false, AttrsOf(b) + {Nameref})), nameref := Some(target))
  }

  /** The attributes an array assignment carries over to the new array. */
  const CARRIED: seq<Attr> := [Integer, Lowercase, Uppercase, Capcase, Trace, Export, Nameref]

  function Carry(b: Binding, attrs: set<Attr>, list: seq<Attr>): Binding {
    if list == [] then b
    else
      var last := list[|list| - 1];
      var c := Carry(b, attrs, list[..|list| - 1]);
      if last in attrs then WithAttr(c, last, true) else c
  }

  /** `b`, made an array of the given kind that carries the attributes of the variable it replaces. */
  function Remade(b: Binding, attrs: set<Attr>, exported: bool, kind: Attr): Binding {
    var carried := WithAttr(Carry(b, attrs, CARRIED), kind, true);
    if exported then WithExport(carried) else carried
  }

  function ResetIndexed(b: Binding, attrs: set<Attr>, exported: bool): Binding {
    Remade(WithArray(b, []), attrs, exported, ArrayAttr)
  }

  function EnsureIndexed(b: Binding, attrs: set<Attr>, exported: bool): Binding {
    if KindOf(b) == Indexed && b.indexed.Some? then b
    else Remade(WithArray(b, if ValueOf(b).Some? then [ValueOf(b).value] else []), attrs, exported, ArrayAttr)
  }

  function FillElements(b: Binding, entries: seq<(int, string)>): Binding {
    if entries == [] then b
    else WithElement(FillElements(b, entries[..|entries| - 1]), entries[|entries| - 1].0, entries[|entries| - 1].1)
  }

  function FillKeys(b: Binding, values: seq<(string, string)>): Binding {
    if values == [] then b
    else WithKey(FillKeys(b, values[..|values| - 1]), values[|values| - 1].0, values[|values| - 1].1)
  }

  /** An empty list still leaves an associative array behind. */
  function FillAssoc(b: Binding, values: seq<(string, string)>): Binding {
    if values == [] then WithoutKey(WithKey(b, "", ""), "", None) else FillKeys(b, values)
  }

  function RemoveKeys(b: Binding, keys: seq<int>): Binding {
    if keys == [] then b else WithoutKey(RemoveKeys(b, keys[..|keys| - 1]), "", Some(keys[|keys| - 1]))
  }

  // ---- None of these makes a binding readonly

  lemma StepsStayFree(b: Binding)
    requires Free(b)
    ensures forall vs :: Free(WithArray(b, vs))
    ensures forall i, v :: Free(WithElement(b, i, v))
    ensures forall k, v :: Free(WithKey(b, k, v))
    ensures forall k, i :: Free(WithoutKey(b, k, i))
    ensures forall a, on :: a != Readonly ==> Free(WithAttr(b, a, on))
    ensures Free(WithExport(b))
    ensures forall v :: Free(WithValue(b, v))
    ensures forall t :: Free(WithTarget(b, t))
  {}

  lemma {:induction false} CarryFree(b: Binding, attrs: set<Attr>, list: seq<Attr>)
    requires Free(b) && Readonly !in list
    ensures Free(Carry(b, attrs, list))
  {
    if list != [] {
      var init := list[..|list| - 1];
      CarryFree(b, attrs, init);
      StepsStayFree(Carry(b, attrs, init));
    }
  }

  lemma RemadeFree(b: Binding, attrs: set<Attr>, exported: bool, kind: Attr)
    requires Free(b) && kind != Readonly
    ensures Free(Remade(b, attrs, exported, kind))
  {
    var carried := Carry(b, attrs, CARRIED);
    CarryFree(b, attrs, CARRIED);
    StepsStayFree(carried);
    StepsStayFree(WithAttr(carried, kind, true));
  }

  lemma {:induction false} FillElementsFree(b: Binding, entries: seq<(int, string)>)
    requires Free(b)
    ensures Free(FillElements(b, entries))
  {
    if entries != [] {
      FillElementsFree(b, entries[..|entries| - 1]);
      StepsStayFree(FillElements(b, entries[..|entries| - 1]));
    }
  }

  lemma {:induction false} FillAssocFree(b: Binding, values: seq<(string, string)>)
    requires Free(b)
    ensures Free(FillKeys(b, values)) && Free(FillAssoc(b, values))
  {
    StepsStayFree(b);
    StepsStayFree(WithKey(b, "", ""));
    if values != [] {
      FillAssocFree(b, values[..|values| - 1]);
      StepsStayFree(FillKeys(b, values[..|values| - 1]));
    }
  }

  lemma {:induction false} RemoveKeysFree(b: Binding, keys: seq<int>)
    requires Free(b)
    ensures Free(RemoveKeys(b, keys))
  {
    if keys != [] {
      RemoveKeysFree(b, keys[..|keys| - 1]);
      StepsStayFree(RemoveKeys(b, keys[..|keys| - 1]));
    }
  }
}
