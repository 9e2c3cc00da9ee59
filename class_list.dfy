/**
 * The classes list page (src/pages/classes/list.tsx): the refine filters composed
 * from the three UI selections, and the status badge of a row.
 */
module ClassList {
  import opened Common

  datatype Operator = Eq | Contains

  /** A refine `CrudFilter` `{field, operator, value}`. */
  datatype Filter = Filter(field: string, operator: Operator, value: string)

  /** The sentinel the subject and teacher selects use for "no filter". */
  const All: string := "all"

  /** The filter of a select (subject or teacher): none for the "all" sentinel,
      otherwise one equality filter on `field`. */
  function SelectFilters(field: string, selected: string): (fs: seq<Filter>)
    ensures fs == [] <==> selected == All
    ensures fs != [] ==> fs == [Filter(field, Eq, selected)]
  {
    if selected == All then [] else [Filter(field, Eq, selected)]
  }

  /** A search query filters only when it is truthy, that is, not empty. */
  function SearchFilters(searchQuery: string): (fs: seq<Filter>)
    ensures fs == [] <==> searchQuery == ""
    ensures fs != [] ==> fs == [Filter("name", Contains, searchQuery)]
  {
    if searchQuery != "" then [Filter("name", Contains, searchQuery)] else []
  }

  /** The table's permanent filters: the subject, teacher and search filters, in that order. */
  function Permanent(selectedSubject: string, selectedTeacher: string, searchQuery: string): (fs: seq<Filter>)
    ensures |fs| <= 3
    ensures forall i, j :: 0 <= i < j < |fs| ==> fs[i].field != fs[j].field
  {
    SelectFilters("subject", selectedSubject) + SelectFilters("teacher", selectedTeacher) + SearchFilters(searchQuery)
  }

  /** The value of the first filter on `field`, if any. */
  function Lookup(fs: seq<Filter>, field: string): Option<string>
    decreases |fs|
  {
    if fs == [] then None
    else if fs[0].field == field then Some(fs[0].value)
    else Lookup(fs[1..], field)
  }

  /** The UI selections read back from a filter list: the inverse of `Permanent`. */
  function Selections(fs: seq<Filter>): (string, string, string) {
    var s := Lookup(fs, "subject");
    var t := Lookup(fs, "teacher");
    var q := Lookup(fs, "name");
    (s.GetOr(All), t.GetOr(All), q.GetOr(""))
  }

  /** Looking a field up in a concatenation finds the first list's filter first. */
  lemma {:induction false} LookupAppend(a: seq<Filter>, b: seq<Filter>, field: string)
    ensures Lookup(a + b, field) == if Lookup(a, field).Some? then Lookup(a, field) else Lookup(b, field)
    decreases |a|
  {
    if a == [] {
      assert a + b == b;
    } else {
      LookupAppend(a[1..], b, field);
      assert (a + b)[1..] == a[1..] + b;
    }
  }

  /** The permanent filters determine the selections they were built from, so
      two different selections never yield the same filters. */
  lemma SelectionsOfPermanent(subject: string, teacher: string, query: string)
    ensures Selections(Permanent(subject, teacher, query)) == (subject, teacher, query)
  {
    var ss, ts, qs := SelectFilters("subject", subject), SelectFilters("teacher", teacher), SearchFilters(query);
    assert Permanent(subject, teacher, query) == (ss + ts) + qs;
    LookupAppend(ss + ts, qs, "subject");
    LookupAppend(ss, ts, "subject");
    LookupAppend(ss + ts, qs, "teacher");
    LookupAppend(ss, ts, "teacher");
    LookupAppend(ss + ts, qs, "name");
    LookupAppend(ss, ts, "name");
  }

  /** Each filter in the permanent list is one of the three the selections ask
      for, and the three come in the order subject, teacher, search. */
  lemma PermanentOrder(subject: string, teacher: string, query: string)
    ensures var fs := Permanent(subject, teacher, query);
      && (subject != All ==> fs[0] == Filter("subject", Eq, subject))
      && (teacher != All ==> fs[if subject != All then 1 else 0] == Filter("teacher", Eq, teacher))
      && (query != "" ==> fs[|fs| - 1] == Filter("name", Contains, query))
      && |fs| == (if subject != All then 1 else 0) + (if teacher != All then 1 else 0) + (if query != "" then 1 else 0)
  {
  }

  /** The initial selections of the page filter nothing. */
  lemma InitialFiltersEmpty()
    ensures Permanent(All, All, "") == []
  {
  }

  /** The badge variant of a status cell. */
  function StatusVariant(status: string): (variant: string)
    ensures variant == "default" <==> status == "active"
    ensures variant == "default" || variant == "secondary"
  {
    if status == "active" then "default" else "secondary"
  }
}
