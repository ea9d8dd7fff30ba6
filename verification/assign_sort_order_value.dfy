/** The document-service middleware that gives a newly created entry an
    initial sort value. The lookup of the last entry is a store query; its
    answer enters the model as the parameter `lastSortOrder`. */
module AssignSortOrderValue {
  import opened Wrappers

  /** The document-service actions the middleware distinguishes. */
  datatype DocumentAction = Create | Delete | OtherAction(name: string)

  /** A field value in the data of a create request. `Null` stands for both
      `null` and `undefined`, which the middleware treats alike. Integers and
      strings are modelled; JavaScript floats, NaN and objects are not. */
  datatype Value = Null | Number(n: int) | Text(s: string)

  /** The data object of a request, by own property name. */
  type Data = map<string, Value>

  /** `hasSortOrderField`: the data has the sort field as an own property. */
  predicate HasSortOrderField(data: Data, sortOrderField: string) {
    sortOrderField in data
  }

  /** JavaScript truthiness of a value: null, zero and the empty string are
      falsy. */
  predicate Truthy(v: Value) {
    match v
    case Null => false
    case Number(n) => n != 0
    case Text(s) => s != ""
  }

  /** The test `v || v === 0`: the user supplied a sort value. Zero counts as
      supplied; null and the empty string do not. */
  predicate IsProvided(v: Value): (provided: bool)
    ensures provided <==> v != Null && v != Text("")
    ensures v.Number? ==> provided
  {
    Truthy(v) || v == Number(0)
  }

  /** The value a create receives when none was provided: one past the last
      entry's value, or zero when there is no last entry or its value is null. */
  function NextSortOrder(lastSortOrder: Option<int>): (next: int)
    ensures lastSortOrder.Some? ==> next > lastSortOrder.value
    ensures lastSortOrder.None? ==> next == 0
  {
    match lastSortOrder
    case Some(last) => last + 1
    case None => 0
  }

  /** The middleware callback. Every action continues to `next` with the data
      returned here; only a create whose data has the sort field without a
      provided value gets that field set, to `NextSortOrder(lastSortOrder)`. */
  function MiddlewareCallback(action: DocumentAction, sortOrderField: string, data: Data,
                                lastSortOrder: Option<int>): (result: Data)
    ensures action != Create ==> result == data
    ensures !HasSortOrderField(data, sortOrderField) ==> result == data
    ensures HasSortOrderField(data, sortOrderField) && IsProvided(data[sortOrderField]) ==> result == data
    ensures result.Keys == data.Keys
    ensures forall key :: key in data && key != sortOrderField ==> result[key] == data[key]
    ensures action == Create && HasSortOrderField(data, sortOrderField) && !IsProvided(data[sortOrderField])
      ==> result[sortOrderField] == Number(NextSortOrder(lastSortOrder))
  {
    match action
    case Create =>
      if !HasSortOrderField(data, sortOrderField) then data
      else if IsProvided(data[sortOrderField]) then data
      else data[sortOrderField := Number(NextSortOrder(lastSortOrder))]
    case Delete => data
    case OtherAction(_) => data
  }

  /** A create changes the data exactly when the data has the sort field
      (`hasSortOrderField`) and its value is not provided; the value then
      written is itself provided, so a second pass changes nothing. */
  lemma CreateWritesExactlyWhenUnset(sortOrderField: string, data: Data, lastSortOrder: Option<int>)
    ensures var result := MiddlewareCallback(Create, sortOrderField, data, lastSortOrder);
      && (result != data <==> HasSortOrderField(data, sortOrderField) && !IsProvided(data[sortOrderField]))
      && (HasSortOrderField(result, sortOrderField) <==> HasSortOrderField(data, sortOrderField))
      && MiddlewareCallback(Create, sortOrderField, result, lastSortOrder) == result
  {
  }

  /** Creating into a collection whose sort values are exactly `0 .. n-1`,
      with the last entry holding the largest, extends the values to
      `0 .. n`: the new entry lands behind every existing one, without a gap
      or a collision. */
  lemma CreateKeepsValuesContiguous(existing: set<int>, n: nat, lastSortOrder: Option<int>,
                                    sortOrderField: string, data: Data)
    requires forall v :: v in existing <==> 0 <= v < n
    requires lastSortOrder == if n == 0 then None else Some(n - 1)
    requires HasSortOrderField(data, sortOrderField) && !IsProvided(data[sortOrderField])
    ensures var written := MiddlewareCallback(Create, sortOrderField, data, lastSortOrder)[sortOrderField];
      && written == Number(n)
      && written.n !in existing
      && (forall v :: v in existing ==> v < written.n)
      && (forall v :: v in existing || v == written.n <==> 0 <= v <= n)
  {
  }
}
