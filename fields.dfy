/** Updates by attribute name: the `updates` dict that the update operations take,
    the whitelist it is checked against, the `setattr` loop that applies it
    (core/db/crud.py:175-178, 256-259, 328-331) and the `{field: getattr(row, field)}`
    snapshots the applicant service records (api/v1/services/applicant.py:100, 107).

    A key of the dict is kept as the `Field` its name denotes: a column of the store,
    or a name that denotes no column. `FieldOf` and `FieldName` convert between the
    two, so that rules stated on fields are rules on the names. */
module Fields {
  import opened Outcomes
  import opened Models

  /** The attribute an `updates` key names. */
  datatype Field = Col(col: Column) | Unknown(name: string)

  /** The key's name. */
  function FieldName(f: Field): string {
    match f
    case Col(c) => ColumnName(c)
    case Unknown(n) => n
  }

  /** The field a key name denotes. */
  function FieldOf(name: string): (f: Field)
    ensures FieldName(f) == name
    ensures f.Col? <==> ParseColumn(name).Some?
  {
    match ParseColumn(name)
    case Some(c) => Col(c)
    case None => Unknown(name)
  }

  /** A field as `FieldOf` produces it: an unknown name names no column. */
  predicate Canonical(f: Field) {
    f.Unknown? ==> ParseColumn(f.name).None?
  }

  /** Fields and names correspond one to one: a canonical field is the field of its
      own name, and distinct canonical fields have distinct names. */
  lemma FieldNamesFaithful(f: Field, g: Field)
    requires Canonical(f) && Canonical(g)
    ensures FieldOf(FieldName(f)) == f
    ensures FieldName(f) == FieldName(g) ==> f == g
  {
    ColumnNamesDistinct(if f.Col? then f.col else FirstName, if g.Col? then g.col else FirstName);
  }

  /** An `updates` dict in its iteration order: key and new value. */
  type Updates = seq<(Field, Value)>

  /** The keys of an `updates` dict, in iteration order. */
  function Keys(u: Updates): (r: seq<Field>)
    ensures |r| == |u| && forall k :: 0 <= k < |u| ==> r[k] == u[k].0
  {
    if |u| == 0 then [] else [u[0].0] + Keys(u[1..])
  }

  /** `request.dict(exclude_unset=True)`: the fields the client set, in the order
      the request schema declares them (`order`). Each key is one of those fields
      and carries the value the client sent for it. */
  function SetFields(order: seq<Column>, sent: map<Column, Value>): (u: Updates)
    ensures forall k :: 0 <= k < |u| ==> u[k].0.Col? && u[k].0.col in order && u[k].0.col in sent && u[k].1 == sent[u[k].0.col]
  {
    if |order| == 0 then []
    else
      var rest := SetFields(order[1..], sent);
      if order[0] in sent then [(Col(order[0]), sent[order[0]])] + rest else rest
  }

  /** Every field of the schema that the client set is among the keys. */
  lemma {:induction false} SetFieldsComplete(order: seq<Column>, sent: map<Column, Value>)
    ensures forall c :: c in order && c in sent ==> Col(c) in Keys(SetFields(order, sent))
  {
    if |order| > 0 {
      var u, rest := SetFields(order, sent), SetFields(order[1..], sent);
      SetFieldsComplete(order[1..], sent);
      forall c | c in order && c in sent ensures Col(c) in Keys(u) {
        if c == order[0] {
          assert Keys(u)[0] == Col(c);
        } else {
          assert c in order[1..];
          var k :| 0 <= k < |rest| && Keys(rest)[k] == Col(c);
          var shift := if order[0] in sent then 1 else 0;
          assert u[k + shift] == rest[k];
          assert Keys(u)[k + shift] == Col(c);
        }
      }
    }
  }

  /** A schema that declares each field once yields a dict with each key once. */
  lemma {:induction false} SetFieldsDistinct(order: seq<Column>, sent: map<Column, Value>)
    requires forall i, j :: 0 <= i < j < |order| ==> order[i] != order[j]
    ensures DistinctKeys(SetFields(order, sent))
  {
    if |order| > 0 {
      var u, rest := SetFields(order, sent), SetFields(order[1..], sent);
      SetFieldsDistinct(order[1..], sent);
      if order[0] in sent {
        forall k | 0 <= k < |rest| ensures rest[k].0 != Col(order[0]) {
          var j :| 0 <= j < |order[1..]| && order[1..][j] == rest[k].0.col;
          assert order[j + 1] == rest[k].0.col;
        }
        forall i, j | 0 <= i < j < |u| ensures u[i].0 != u[j].0 {
          assert u[j] == rest[j - 1];
          if 0 < i {
            assert u[i] == rest[i - 1];
          }
        }
      }
    }
  }

  /** When every field of the request schema is on the whitelist, the fields the
      client set always pass it. */
  lemma SetFieldsAllowed(order: seq<Column>, sent: map<Column, Value>, allowed: set<Column>)
    requires forall i :: 0 <= i < |order| ==> order[i] in allowed
    ensures FirstDisallowed(SetFields(order, sent), allowed).None?
  {
    var u := SetFields(order, sent);
    forall k | 0 <= k < |u| ensures Allowed(u[k].0, allowed) {
      var i :| 0 <= i < |order| && order[i] == u[k].0.col;
    }
  }

  /** The fields the client set put NULL into a required column exactly when the
      client sent null for one of them. */
  lemma SetFieldsSetsNull(order: seq<Column>, sent: map<Column, Value>, required: set<Column>)
    requires forall c :: c in required ==> c in order
    ensures SetsNull(SetFields(order, sent), required) <==> exists c :: c in required && c in sent && sent[c] == Null
  {
    var u := SetFields(order, sent);
    if SetsNull(u, required) {
      var k :| 0 <= k < |u| && u[k].0.Col? && u[k].0.col in required && u[k].1 == Null;
      assert sent[u[k].0.col] == Null;
    } else {
      SetFieldsComplete(order, sent);
      forall c | c in required && c in sent
        ensures sent[c] != Null
      {
        KeysName(u, c);
        var k :| 0 <= k < |u| && u[k].0 == Col(c);
      }
    }
  }

  /** A dict never holds the same key twice. */
  predicate DistinctKeys(u: Updates) {
    forall i, j :: 0 <= i < j < |u| ==> u[i].0 != u[j].0
  }

  /** `field in allowed_fields`, for a set of allowed columns. */
  predicate Allowed(f: Field, allowed: set<Column>) {
    f.Col? && f.col in allowed
  }

  /** The error raised for a key outside the whitelist. */
  function FieldError(f: Field): HttpException {
    HttpException(BadRequest, "Field '" + FieldName(f) + "' cannot be updated")
  }

  /** Position of the first key, in iteration order, that is not allowed. */
  function FirstDisallowed(u: Updates, allowed: set<Column>): (r: Option<nat>)
    ensures r.Some? ==> r.value < |u| && !Allowed(u[r.value].0, allowed)
    ensures r.Some? ==> forall k :: 0 <= k < r.value ==> Allowed(u[k].0, allowed)
    ensures r.None? <==> forall k :: 0 <= k < |u| ==> Allowed(u[k].0, allowed)
  {
    if |u| == 0 then None
    else if !Allowed(u[0].0, allowed) then Some(0)
    else match FirstDisallowed(u[1..], allowed)
      case None => None
      case Some(k) => Some(k + 1)
  }

  /** The value that the last update of column `c` assigns, if any update names it. */
  function Assigned(u: Updates, c: Column): Option<Value> {
    if |u| == 0 then None
    else if u[|u| - 1].0 == Col(c) then Some(u[|u| - 1].1)
    else Assigned(u[..|u| - 1], c)
  }

  /** Some key of `u` names column `c`. */
  predicate Names(u: Updates, c: Column) {
    exists k :: 0 <= k < |u| && u[k].0 == Col(c)
  }

  /** A column is among the keys exactly when some key names it. */
  lemma KeysName(u: Updates, c: Column)
    ensures Col(c) in Keys(u) <==> Names(u, c)
  {
    var keys := Keys(u);
    if Col(c) in keys {
      var k :| 0 <= k < |keys| && keys[k] == Col(c);
      assert u[k].0 == Col(c);
    }
    if Names(u, c) {
      var k :| 0 <= k < |u| && u[k].0 == Col(c);
      assert keys[k] == Col(c);
    }
  }

  /** A column is assigned exactly when some key names it. */
  lemma {:induction false} AssignedIffNamed(u: Updates, c: Column)
    ensures Assigned(u, c).Some? <==> Names(u, c)
  {
    if |u| > 0 && u[|u| - 1].0 != Col(c) {
      var init := u[..|u| - 1];
      AssignedIffNamed(init, c);
      if Names(u, c) {
        var k :| 0 <= k < |u| && u[k].0 == Col(c);
        assert init[k] == u[k];
      }
      if Names(init, c) {
        var k :| 0 <= k < |init| && init[k].0 == Col(c);
        assert u[k] == init[k];
      }
    }
  }

  /** In a dict each key occurs once, so the column it names takes exactly its value. */
  lemma {:induction false} AssignedIsPayload(u: Updates, k: nat)
    requires DistinctKeys(u) && k < |u| && u[k].0.Col?
    ensures Assigned(u, u[k].0.col) == Some(u[k].1)
  {
    if k < |u| - 1 {
      assert u[|u| - 1].0 != u[k].0;
      var init := u[..|u| - 1];
      assert init[k] == u[k];
      AssignedIsPayload(init, k);
    }
  }

  /** The columns of a row after every update in `u` is applied in turn: a column
      named by some key takes the value of the last such key, every other column
      keeps its value. Keys that name no column of the row leave it unchanged. */
  function Updated(attrs: map<Column, Value>, u: Updates): (m: map<Column, Value>)
    ensures m.Keys == attrs.Keys
  {
    map c | c in attrs :: if Assigned(u, c).Some? then Assigned(u, c).value else attrs[c]
  }

  /** Some key of the payload writes NULL into one of the `required` columns. */
  predicate SetsNull(u: Updates, required: set<Column>) {
    exists k :: 0 <= k < |u| && u[k].0.Col? && u[k].0.col in required && u[k].1 == Null
  }

  /** A row whose `required` columns hold values still does after an update with
      distinct keys exactly when no key writes NULL into one of them. */
  lemma NullsAfterUpdate(attrs: map<Column, Value>, u: Updates, required: set<Column>)
    requires DistinctKeys(u) && required <= attrs.Keys && NoNulls(attrs, required)
    ensures NoNulls(Updated(attrs, u), required) <==> !SetsNull(u, required)
  {
    if SetsNull(u, required) {
      var k :| 0 <= k < |u| && u[k].0.Col? && u[k].0.col in required && u[k].1 == Null;
      AssignedIsPayload(u, k);
    } else {
      forall c | c in required
        ensures Updated(attrs, u)[c] != Null
      {
        if Names(u, c) {
          var k :| 0 <= k < |u| && u[k].0 == Col(c);
          AssignedIsPayload(u, k);
        } else {
          AssignedIffNamed(u, c);
        }
      }
    }
  }

  /** What an update of a row promises: every column named by a key holds that key's
      value, every column no key names is unchanged, and no column appears or
      disappears. */
  lemma UpdatedSpec(attrs: map<Column, Value>, u: Updates)
    requires DistinctKeys(u)
    ensures Updated(attrs, u).Keys == attrs.Keys
    ensures forall k :: 0 <= k < |u| && u[k].0.Col? && u[k].0.col in attrs ==>
              Updated(attrs, u)[u[k].0.col] == u[k].1
    ensures forall c :: c in attrs && !Names(u, c) ==> Updated(attrs, u)[c] == attrs[c]
  {
    forall k | 0 <= k < |u| && u[k].0.Col? && u[k].0.col in attrs
      ensures Updated(attrs, u)[u[k].0.col] == u[k].1
    {
      AssignedIsPayload(u, k);
    }
    forall c | c in attrs && !Names(u, c)
      ensures Updated(attrs, u)[c] == attrs[c]
    {
      AssignedIffNamed(u, c);
    }
  }

  /** The `setattr` loop of an update: each key in turn must be allowed, else the
      loop stops with a 400 naming it; otherwise the column takes the value. Keys
      after a rejected one are never looked at. */
  method AssignFields(attrs: map<Column, Value>, allowed: set<Column>, u: Updates) returns (r: Result<map<Column, Value>>)
    requires allowed <= attrs.Keys
    ensures FirstDisallowed(u, allowed).Some? ==> r == Err(FieldError(u[FirstDisallowed(u, allowed).value].0))
    ensures FirstDisallowed(u, allowed).None? ==> r == Ok(Updated(attrs, u))
  {
    var cur := attrs;
    var i := 0;
    while i < |u|
      invariant 0 <= i <= |u|
      invariant forall k :: 0 <= k < i ==> Allowed(u[k].0, allowed)
      invariant cur == Updated(attrs, u[..i])
    {
      var (field, v) := u[i];
      if !Allowed(field, allowed) {
        return Err(FieldError(field));
      }
      cur := cur[field.col := v];
      assert u[..i + 1][..i] == u[..i];
      i := i + 1;
    }
    assert u[..|u|] == u;
    return Ok(cur);
  }

  /** A service's own whitelist loop: the first key, in iteration order, outside the
      allowed set is reported as a 400; nothing is assigned. */
  method CheckFields(u: Updates, allowed: set<Column>) returns (r: Option<HttpException>)
    ensures r.None? <==> FirstDisallowed(u, allowed).None?
    ensures r.Some? ==> r.value == FieldError(u[FirstDisallowed(u, allowed).value].0)
  {
    var i := 0;
    while i < |u|
      invariant 0 <= i <= |u|
      invariant forall k :: 0 <= k < i ==> Allowed(u[k].0, allowed)
    {
      if !Allowed(u[i].0, allowed) {
        return Some(FieldError(u[i].0));
      }
      i := i + 1;
    }
    return None;
  }

  /** `{field: getattr(row, field) for field in keys}` over a row's columns: the
      snapshot of the named columns, or a server error when a key is not a column
      of the row. */
  function Snapshot(attrs: map<Column, Value>, keys: seq<Field>): (r: Result<Models.Snapshot>)
    ensures r.Ok? <==> forall k :: 0 <= k < |keys| ==> keys[k].Col? && keys[k].col in attrs
    ensures r.Err? ==> r.error == InternalError
    ensures r.Ok? ==> forall c :: c in r.value <==> Col(c) in keys
    ensures r.Ok? ==> forall c :: c in r.value ==> c in attrs && r.value[c] == attrs[c]
  {
    if |keys| == 0 then Ok(map[])
    else
      var f := keys[|keys| - 1];
      assert keys == keys[..|keys| - 1] + [f];
      match Snapshot(attrs, keys[..|keys| - 1])
      case Err(e) => Err(e)
      case Ok(m) =>
        if f.Col? && f.col in attrs then Ok(m[f.col := attrs[f.col]])
        else Err(InternalError)
  }
}
