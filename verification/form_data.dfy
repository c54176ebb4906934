/**
 * The parts of the Web `FormData` interface the modelled code uses: an ordered
 * list of named entries, each holding text or a file, with `get`, `getAll`,
 * `delete`, `append` and `forEach` (which visits the entries in list order).
 */
module FormData {
  import opened Wrappers

  datatype FileBlob = FileBlob(name: string, bytes: seq<bv8>)

  /** An entry value: a string, or a `File`. */
  datatype FormValue = Text(text: string) | File(file: FileBlob)

  datatype Entry = Entry(name: string, value: FormValue)

  type Form = seq<Entry>

  /** `formData.getAll(name)`: the values of the entries with that name, in list order. */
  function GetAll(form: Form, name: string): (vs: seq<FormValue>)
    ensures |vs| <= |form|
    ensures forall v :: v in vs <==> Entry(name, v) in form
  {
    if |form| == 0 then []
    else
      var rest := GetAll(form[1..], name);
      assert forall e :: e in form <==> e == form[0] || e in form[1..];
      if form[0].name == name then [form[0].value] + rest else rest
  }

  /** `getAll` of a concatenation is the concatenation of the `getAll`s. */
  lemma {:induction false} GetAllAppend(a: Form, b: Form, name: string)
    ensures GetAll(a + b, name) == GetAll(a, name) + GetAll(b, name)
  {
    if |a| == 0 {
      assert a + b == b;
    } else {
      assert (a + b)[0] == a[0];
      assert (a + b)[1..] == a[1..] + b;
      GetAllAppend(a[1..], b, name);
    }
  }

  /** `formData.get(name)`: the value of the first entry with that name, or null. */
  function Get(form: Form, name: string): (r: Option<FormValue>)
    ensures r.None? <==> GetAll(form, name) == []
    ensures r.Some? ==> r.value == GetAll(form, name)[0]
  {
    if |form| == 0 then None
    else if form[0].name == name then Some(form[0].value)
    else Get(form[1..], name)
  }

  /** `formData.delete(name)`: removes every entry with that name and keeps the rest in order. */
  function Delete(form: Form, name: string): (r: Form)
    ensures forall e :: e in r <==> e in form && e.name != name
    ensures GetAll(r, name) == []
    ensures forall m :: m != name ==> GetAll(r, m) == GetAll(form, m)
  {
    if |form| == 0 then []
    else
      var rest := Delete(form[1..], name);
      assert forall e :: e in form <==> e == form[0] || e in form[1..];
      if form[0].name == name then rest
      else
        assert ([form[0]] + rest)[1..] == rest;
        [form[0]] + rest
  }

  /** The strings as text values, in order. */
  function Texts(items: seq<string>): (vs: seq<FormValue>)
    ensures |vs| == |items|
    ensures forall i :: 0 <= i < |items| ==> vs[i] == Text(items[i])
  {
    seq(|items|, i requires 0 <= i < |items| => Text(items[i]))
  }

  /** One text entry per item, all under `name`, in order. */
  function TextEntries(name: string, items: seq<string>): (es: Form)
    ensures |es| == |items|
  {
    seq(|items|, i requires 0 <= i < |items| => Entry(name, Text(items[i])))
  }

  /** The entries built from `items` hold exactly the items, and nothing under other names. */
  lemma {:induction false} GetAllTextEntries(name: string, items: seq<string>, m: string)
    ensures GetAll(TextEntries(name, items), m) == if m == name then Texts(items) else []
  {
    if |items| > 0 {
      GetAllTextEntries(name, items[1..], m);
      assert TextEntries(name, items)[1..] == TextEntries(name, items[1..]);
      assert Texts(items) == [Text(items[0])] + Texts(items[1..]);
    }
  }

  /**
   * `items.forEach(item => formData.append(name, item))`: the items arrive at the
   * end of the list under `name`, and no other name's values change.
   */
  function AppendAll(form: Form, name: string, items: seq<string>): (r: Form)
    ensures GetAll(r, name) == GetAll(form, name) + Texts(items)
    ensures forall m :: m != name ==> GetAll(r, m) == GetAll(form, m)
  {
    var r := form + TextEntries(name, items);
    forall m ensures GetAll(r, m) == GetAll(form, m) + (if m == name then Texts(items) else []) {
      GetAllAppend(form, TextEntries(name, items), m);
      GetAllTextEntries(name, items, m);
    }
    r
  }
}
