/**
 * The submit handler of the create-event page: before posting, the `tags`
 * field is split on `,` and the `agenda` field on line breaks; each piece is
 * trimmed, empty pieces are dropped, and the pieces replace the original field
 * as repeated entries.
 */
module CreatePage {
  import opened Wrappers
  import opened JsStrings
  import opened FormData

  const TagsField := "tags"
  const AgendaField := "agenda"
  const TagSeparator := ','
  const AgendaSeparator := '\n'

  /** `.map(p => p.trim()).filter(Boolean)`: the non-empty trimmed pieces, in order. */
  function Clean(pieces: seq<string>): (r: seq<string>)
    ensures |r| <= |pieces|
  {
    if |pieces| == 0 then []
    else
      var rest := Clean(pieces[1..]);
      var t := Trim(pieces[0]);
      if t == "" then rest else [t] + rest
  }

  /** Every item that survives cleaning is non-empty and trimmed. */
  lemma {:induction false} CleanItemsTrimmed(pieces: seq<string>)
    ensures forall i :: 0 <= i < |Clean(pieces)| ==> Clean(pieces)[i] != "" && IsTrimmed(Clean(pieces)[i])
  {
    if |pieces| > 0 {
      var rest := Clean(pieces[1..]);
      var t := Trim(pieces[0]);
      CleanItemsTrimmed(pieces[1..]);
      if t != "" {
        TrimSpec(pieces[0]);
        var r := [t] + rest;
        assert forall i :: 1 <= i < |r| ==> r[i] == rest[i - 1];
      }
    }
  }

  /** An item survives cleaning exactly when it is the non-empty trim of some piece. */
  lemma {:induction false} CleanMembers(pieces: seq<string>, t: string)
    ensures t in Clean(pieces) <==> t != "" && exists i :: 0 <= i < |pieces| && Trim(pieces[i]) == t
  {
    if |pieces| > 0 {
      CleanMembers(pieces[1..], t);
      CleanMembersStep(pieces, t);
    }
  }

  /** The inductive step of `CleanMembers`. */
  lemma CleanMembersStep(pieces: seq<string>, t: string)
    requires |pieces| > 0
    requires t in Clean(pieces[1..]) <==> t != "" && exists i :: 0 <= i < |pieces[1..]| && Trim(pieces[1..][i]) == t
    ensures t in Clean(pieces) <==> t != "" && exists i :: 0 <= i < |pieces| && Trim(pieces[i]) == t
  {
    var tail := pieces[1..];
    var t0 := Trim(pieces[0]);
    assert Clean(pieces) == if t0 == "" then Clean(tail) else [t0] + Clean(tail);
    if t in Clean(pieces) {
      if t0 != "" && t == t0 {
        assert Trim(pieces[0]) == t;
      } else {
        assert t in Clean(tail);
        var j :| 0 <= j < |tail| && Trim(tail[j]) == t;
        assert Trim(pieces[j + 1]) == t;
      }
    }
    if t != "" && exists i :: 0 <= i < |pieces| && Trim(pieces[i]) == t {
      var i :| 0 <= i < |pieces| && Trim(pieces[i]) == t;
      if i > 0 {
        assert Trim(tail[i - 1]) == t;
        assert t in Clean(tail);
      }
    }
  }

  /** Cleaning keeps order: the pieces of `a` come before those of `b`. */
  lemma {:induction false} CleanAppend(a: seq<string>, b: seq<string>)
    ensures Clean(a + b) == Clean(a) + Clean(b)
  {
    if |a| == 0 {
      assert a + b == b;
    } else {
      var t := Trim(a[0]);
      assert (a + b)[0] == a[0] && (a + b)[1..] == a[1..] + b;
      assert Clean(a + b) == if t == "" then Clean(a[1..] + b) else [t] + Clean(a[1..] + b);
      assert Clean(a) == if t == "" then Clean(a[1..]) else [t] + Clean(a[1..]);
      CleanAppend(a[1..], b);
      if t != "" {
        ConsAssociative(t, Clean(a[1..]), Clean(b));
      }
    }
  }

  /**
   * `raw.split(sep).map(p => p.trim()).filter(Boolean)`: no item is empty or has
   * surrounding whitespace, and there is at most one item per separator plus one.
   */
  function SplitTrimFilter(raw: string, sep: char): (r: seq<string>)
    ensures forall i :: 0 <= i < |r| ==> r[i] != "" && IsTrimmed(r[i])
    ensures |r| <= Count(raw, sep) + 1
  {
    SplitPieces(raw, sep);
    CleanItemsTrimmed(Split(raw, sep));
    Clean(Split(raw, sep))
  }

  /** The items of the text before a separator come first, in order, then those after it. */
  lemma SplitTrimFilterAppend(x: string, y: string, sep: char)
    ensures SplitTrimFilter(x + [sep] + y, sep) == SplitTrimFilter(x, sep) + SplitTrimFilter(y, sep)
  {
    SplitAppend(x, y, sep);
    CleanAppend(Split(x, sep), Split(y, sep));
  }

  /** Text without a separator gives its trimmed self, or nothing when it is blank. */
  lemma SplitTrimFilterPiece(x: string, sep: char)
    requires sep !in x
    ensures SplitTrimFilter(x, sep) == if AllWhitespace(x) then [] else [Trim(x)]
  {
    SplitNoSeparator(x, sep);
    TrimEmptyIff(x);
    assert Clean([x]) == if Trim(x) == "" then [] else [Trim(x)] by {
      assert [x][1..] == [];
    }
  }

  /** `items.join(glue)`. */
  function JoinWith(items: seq<string>, glue: string): string {
    if |items| == 0 then ""
    else if |items| == 1 then items[0]
    else items[0] + glue + JoinWith(items[1..], glue)
  }

  /** Items that the split leaves alone: non-empty, trimmed, without the separator. */
  predicate CleanItems(items: seq<string>, sep: char) {
    forall i :: 0 <= i < |items| ==> items[i] != "" && IsTrimmed(items[i]) && sep !in items[i]
  }

  /**
   * Splitting the text the edit page pre-fills (`tags.join(", ")`,
   * `agenda.join("\n")`) gives the original items back.
   */
  lemma {:induction false} SplitTrimFilterJoin(items: seq<string>, sep: char, pad: string)
    requires CleanItems(items, sep)
    requires AllWhitespace(pad) && sep !in pad
    ensures SplitTrimFilter(JoinWith(items, [sep] + pad), sep) == items
  {
    if |items| == 0 {
      SplitTrimFilterPiece("", sep);
    } else if |items| == 1 {
      SplitTrimFilterItem(items[0], sep);
    } else {
      SplitTrimFilterJoin(items[1..], sep, pad);
      SplitTrimFilterJoinStep(items[0], items[1..], sep, pad);
      assert items == [items[0]] + items[1..];
    }
  }

  /** The inductive step of `SplitTrimFilterJoin`: one more item in front. */
  lemma SplitTrimFilterJoinStep(h: string, tail: seq<string>, sep: char, pad: string)
    requires h != "" && IsTrimmed(h) && sep !in h && |tail| > 0
    requires AllWhitespace(pad) && sep !in pad
    requires SplitTrimFilter(JoinWith(tail, [sep] + pad), sep) == tail
    ensures SplitTrimFilter(JoinWith([h] + tail, [sep] + pad), sep) == [h] + tail
  {
    var glue := [sep] + pad;
    var rest := JoinWith(tail, glue);
    var joined := JoinWith([h] + tail, glue);
    assert joined == h + [sep] + (pad + rest) by {
      assert ([h] + tail)[1..] == tail;
      assert joined == h + glue + rest;
      RegroupGlue(h, sep, pad, rest);
    }
    assert SplitTrimFilter(joined, sep) == SplitTrimFilter(h, sep) + SplitTrimFilter(pad + rest, sep) by {
      SplitTrimFilterAppend(h, pad + rest, sep);
    }
    assert SplitTrimFilter(h, sep) == [h] by {
      SplitTrimFilterItem(h, sep);
    }
    assert SplitTrimFilter(pad + rest, sep) == tail by {
      SplitTrimFilterPadded(pad, rest, sep);
    }
  }

  lemma RegroupGlue(h: string, sep: char, pad: string, rest: string)
    ensures h + ([sep] + pad) + rest == h + [sep] + (pad + rest)
  {
  }

  /** A clean item splits to itself. */
  lemma SplitTrimFilterItem(t: string, sep: char)
    requires t != "" && IsTrimmed(t) && sep !in t
    ensures SplitTrimFilter(t, sep) == [t]
  {
    SplitTrimFilterPiece(t, sep);
    TrimOfTrimmed(t);
    TrimEmptyIff(t);
  }

  /** Whitespace in front of the text does not change its items. */
  lemma SplitTrimFilterPadded(pad: string, s: string, sep: char)
    requires AllWhitespace(pad) && sep !in pad
    ensures SplitTrimFilter(pad + s, sep) == SplitTrimFilter(s, sep)
  {
    var i := IndexOf(s, sep);
    if i == |s| {
      assert sep !in pad + s by { assert forall k :: 0 <= k < |pad + s| ==> (pad + s)[k] == if k < |pad| then pad[k] else s[k - |pad|]; assert s[..i] == s; }
      assert s[..i] == s;
      SplitTrimFilterPiece(pad + s, sep);
      SplitTrimFilterPiece(s, sep);
      TrimPadded(pad, s);
    } else {
      var x := s[..i];
      var y := s[i + 1..];
      assert s == x + [sep] + y;
      assert pad + s == (pad + x) + [sep] + y;
      assert sep !in pad + x by { assert forall k :: 0 <= k < |pad + x| ==> (pad + x)[k] == if k < |pad| then pad[k] else x[k - |pad|]; }
      SplitTrimFilterAppend(pad + x, y, sep);
      SplitTrimFilterAppend(x, y, sep);
      SplitTrimFilterPiece(pad + x, sep);
      SplitTrimFilterPiece(x, sep);
      TrimPadded(pad, x);
    }
  }

  /** Leading whitespace is invisible to `trim`. */
  lemma TrimPadded(pad: string, s: string)
    requires AllWhitespace(pad)
    ensures Trim(pad + s) == Trim(s)
    ensures AllWhitespace(pad + s) <==> AllWhitespace(s)
  {
    var r := Trim(s);
    TrimSpec(s);
    var i :| TrimmedAt(s, r, i);
    TrimmedAtPadded(pad, s, r, i);
    TrimUnique(pad + s, r, |pad| + i);
    TrimEmptyIff(pad + s);
    TrimEmptyIff(s);
  }

  /**
   * `formData.get(field) as string`, as far as the following `.split` can use
   * it: a missing field (null) or a file entry has no `split` method, so the
   * handler throws there and posts nothing.
   */
  function RawText(form: Form, field: string): (r: Option<string>)
    ensures r.Some? <==> Get(form, field).Some? && Get(form, field).value.Text?
    ensures r.Some? ==> Text(r.value) == GetAll(form, field)[0]
  {
    match Get(form, field)
    case Some(Text(s)) => Some(s)
    case _ => None
  }

  /**
   * One block of the submit handler: read the raw field, delete every entry of
   * that name, and append the cleaned pieces. Afterwards the field holds exactly
   * the pieces, and every other field is as it was.
   */
  function ReplaceWithPieces(form: Form, field: string, sep: char): (r: Option<Form>)
    ensures r.Some? <==> RawText(form, field).Some?
    ensures r.Some? ==> GetAll(r.value, field) == Texts(SplitTrimFilter(RawText(form, field).value, sep))
    ensures r.Some? ==> forall m :: m != field ==> GetAll(r.value, m) == GetAll(form, m)
  {
    match RawText(form, field)
    case None => None
    case Some(raw) => Some(AppendAll(Delete(form, field), field, SplitTrimFilter(raw, sep)))
  }

  /**
   * What `handleSubmit` posts: tags split on commas and agenda split on line
   * breaks, each replacing its original field, all other fields untouched; or
   * nothing, when either field is missing or is a file.
   */
  function PrepareSubmission(form: Form): (r: Option<Form>)
    ensures r.Some? <==> RawText(form, TagsField).Some? && RawText(form, AgendaField).Some?
    ensures r.Some? ==>
      GetAll(r.value, TagsField) == Texts(SplitTrimFilter(RawText(form, TagsField).value, TagSeparator))
    ensures r.Some? ==>
      GetAll(r.value, AgendaField) == Texts(SplitTrimFilter(RawText(form, AgendaField).value, AgendaSeparator))
    ensures r.Some? ==>
      forall m :: m != TagsField && m != AgendaField ==> GetAll(r.value, m) == GetAll(form, m)
  {
    match ReplaceWithPieces(form, TagsField, TagSeparator)
    case None => None
    case Some(withTags) =>
      assert GetAll(withTags, AgendaField) == GetAll(form, AgendaField);
      assert RawText(withTags, AgendaField) == RawText(form, AgendaField);
      ReplaceWithPieces(withTags, AgendaField, AgendaSeparator)
  }
}
