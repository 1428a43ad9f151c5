/**
 * Enumerable.ToDictionary under StringComparer.OrdinalIgnoreCase. A dictionary is
 * its entries in insertion order; keys keep the case they were written in, and no
 * two keys are equal ignoring case.
 */
module Dictionaries {
  import opened Wrappers
  import opened Strings

  /** One key/value pair; a null value is `None`. */
  datatype Entry = Entry(key: string, value: Option<string>)

  /** No two keys are equal under OrdinalIgnoreCase: what Dictionary.Add maintains. */
  predicate DistinctKeys(d: seq<Entry>) {
    forall i, j :: 0 <= i < j < |d| ==> !EqualsIgnoreCase(d[i].key, d[j].key)
  }

  /** Dictionary.ContainsKey. */
  predicate ContainsKey(d: seq<Entry>, key: string) {
    exists i :: 0 <= i < |d| && EqualsIgnoreCase(d[i].key, key)
  }

  /** Dictionary.Add: throws when the key, ignoring case, is already present. */
  function Add(d: seq<Entry>, e: Entry): (r: Result<seq<Entry>, Exception>)
    ensures r.Success? <==> !ContainsKey(d, e.key)
    ensures r.Failure? ==> r.error == DuplicateKey(e.key)
    ensures r.Success? ==> r.value == d + [e] && (DistinctKeys(d) ==> DistinctKeys(r.value))
  {
    if ContainsKey(d, e.key) then Failure(DuplicateKey(e.key)) else Success(d + [e])
  }

  /**
   * source.Select(select).ToDictionary(...): selects and adds one element at a
   * time, stopping at the first exception, from `select` or from a duplicate key.
   */
  function ToDictionary(source: seq<string>, select: string -> Result<Entry, Exception>)
    : (r: Result<seq<Entry>, Exception>)
    ensures r.Success? ==>
              && |r.value| == |source|
              && DistinctKeys(r.value)
              && forall i :: 0 <= i < |source| ==> select(source[i]) == Success(r.value[i])
  {
    if source == [] then Success([])
    else
      var n := |source| - 1;
      match ToDictionary(source[..n], select)
      case Failure(e) => Failure(e)
      case Success(d) =>
        match select(source[n])
        case Failure(e) => Failure(e)
        case Success(p) => Add(d, p)
  }

  /** A single element that selects without throwing makes a one-entry dictionary. */
  lemma ToDictionarySingle(x: string, select: string -> Result<Entry, Exception>)
    requires select(x).Success?
    ensures ToDictionary([x], select) == Success([select(x).value])
  {
    var empty: seq<Entry> := [];
    assert [x][..0] == [];
    assert !ContainsKey(empty, select(x).value.key);
    assert empty + [select(x).value] == [select(x).value];
  }

  /**
   * ToDictionary throws only when selecting some element throws, or when a selected
   * key repeats an earlier one ignoring case; the exception is the one raised, and
   * it is raised at the first such element: everything before it built a dictionary.
   */
  lemma {:induction false} ToDictionaryFailure(source: seq<string>, select: string -> Result<Entry, Exception>)
    requires ToDictionary(source, select).Failure?
    ensures var e := ToDictionary(source, select).error;
            || (exists i :: 0 <= i < |source| && select(source[i]) == Failure(e))
            || (exists i, j ::
                  && 0 <= i < j < |source|
                  && select(source[i]).Success? && select(source[j]).Success?
                  && EqualsIgnoreCase(select(source[i]).value.key, select(source[j]).value.key)
                  && e == DuplicateKey(select(source[j]).value.key))
    ensures var e := ToDictionary(source, select).error;
            exists k ::
              && 0 <= k < |source|
              && ToDictionary(source[..k], select).Success?
              && (|| select(source[k]) == Failure(e)
                  || (&& select(source[k]).Success?
                      && ContainsKey(ToDictionary(source[..k], select).value, select(source[k]).value.key)
                      && e == DuplicateKey(select(source[k]).value.key)))
  {
    var n := |source| - 1;
    var prefix := source[..n];
    assert forall i :: 0 <= i < n ==> prefix[i] == source[i];
    match ToDictionary(prefix, select)
    case Failure(e) =>
      ToDictionaryFailure(prefix, select);
      var k :| && 0 <= k < |prefix|
               && ToDictionary(prefix[..k], select).Success?
               && (|| select(prefix[k]) == Failure(e)
                   || (&& select(prefix[k]).Success?
                       && ContainsKey(ToDictionary(prefix[..k], select).value, select(prefix[k]).value.key)
                       && e == DuplicateKey(select(prefix[k]).value.key)));
      assert prefix[..k] == source[..k];
    case Success(d) =>
      if select(source[n]).Success? {
        var p := select(source[n]).value;
        var i :| 0 <= i < |d| && EqualsIgnoreCase(d[i].key, p.key);
        assert select(source[i]).value.key == d[i].key;
      }
  }

  /** Dictionary.TryGetValue: the value stored under `key` ignoring case, if any. */
  function TryGetValue(d: seq<Entry>, key: string): (r: Option<Option<string>>)
    ensures r.Some? <==> ContainsKey(d, key)
    ensures r.Some? ==> exists i :: 0 <= i < |d| && EqualsIgnoreCase(d[i].key, key) && d[i].value == r.value
  {
    if d == [] then None
    else if EqualsIgnoreCase(d[0].key, key) then Some(d[0].value)
    else
      var r := TryGetValue(d[1..], key);
      assert forall i :: 1 <= i < |d| ==> d[1..][i - 1] == d[i];
      r
  }

  /** In a dictionary, every spelling of a key up to case finds that key's own value. */
  lemma TryGetValueFinds(d: seq<Entry>, i: nat, key: string)
    requires DistinctKeys(d)
    requires i < |d| && EqualsIgnoreCase(d[i].key, key)
    ensures TryGetValue(d, key) == Some(d[i].value)
  {
  }
}
