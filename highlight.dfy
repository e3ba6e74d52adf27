/** The highlight test applied to every token, and the three ways the user
    changes the selection: picking a type in the first dropdown, picking a
    value in the second, and clicking a token in the code preview. */
module Highlight {
  import opened Model

  /** A token is highlighted when a value is selected (a non-empty one), the
      token carries that value, and either no type is selected or the token
      has the selected type. */
  predicate Highlighted(t: Token, sel: Selection)
  {
    Truthy(sel.value) && t.value == sel.value.value
    && (!Truthy(sel.token) || t.token == sel.token.value)
  }

  /** The highlight test written without truthiness: an absent or empty
      selected type matches every type, an empty selected value matches
      nothing. */
  lemma HighlightedIff(t: Token, sel: Selection)
    ensures Highlighted(t, sel) <==>
      t.value != "" && sel.value == Some(t.value)
      && (sel.token == None || sel.token == Some("") || sel.token == Some(t.token))
  {
  }

  /** Picking a type replaces the whole selection: the new type, no value. */
  function ChooseType(sel: Selection, ty: string): (r: Selection)
    ensures r.token == Some(ty) && r.value == None
    ensures forall t :: !Highlighted(t, r)
  {
    Selection(Some(ty), None)
  }

  /** Picking a value keeps the selected type and replaces only the value. */
  function ChooseValue(sel: Selection, v: string): (r: Selection)
    ensures r.token == sel.token && r.value == Some(v)
    ensures forall t :: Highlighted(t, r) <==>
      v != "" && t.value == v && (!Truthy(sel.token) || t.token == sel.token.value)
  {
    sel.(value := Some(v))
  }

  /** Clicking a token selects its exact type and value, whatever was
      selected before. */
  function Click(sel: Selection, t: Token): (r: Selection)
    ensures r == Selection(Some(t.token), Some(t.value))
    ensures t.value != "" ==> Highlighted(t, r)
    ensures forall u :: Highlighted(u, r) ==> u.value == t.value && (t.token == "" || u.token == t.token)
  {
    Selection(Some(t.token), Some(t.value))
  }

  /** After a click on a token with a non-empty type and value, exactly the
      tokens with that same type and value are highlighted. */
  lemma ClickHighlightsSamePair(sel: Selection, t: Token, u: Token)
    requires t.token != "" && t.value != ""
    ensures Highlighted(u, Click(sel, t)) <==> u.token == t.token && u.value == t.value
  {
  }

  /** With nothing selected, or only a type, no token is highlighted. */
  lemma NoValueNoHighlight(sel: Selection, t: Token)
    requires !Truthy(sel.value)
    ensures !Highlighted(t, sel)
  {
  }
}
