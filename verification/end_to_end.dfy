/**
 * The create page and the `POST` handler together: the page sends every tag
 * and agenda item as its own repeated entry, and the handler's field
 * collection overwrites on repeated names, so the record handed to
 * `Event.create` carries only the last piece of each list.
 */
module Submission {
  import opened Wrappers
  import opened FormData
  import opened CreatePage
  import opened EventsRoute

  /** The last text of a list of texts is the text of the last item. */
  lemma LastOfTexts(items: seq<string>)
    requires |items| > 0
    ensures Last(Texts(items)) == Text(Last(items))
  {
  }

  /** A plain field whose entries are the texts of `items` ends up holding the last item, if any. */
  lemma FieldHoldsLastItem(posted: Form, url: string, field: string, items: seq<string>)
    requires Copied(field) && field != ModeField
    requires GetAll(posted, field) == Texts(items)
    ensures var rec := BuildRecord(posted, url);
      && (field in rec <==> items != [])
      && (items != [] ==> rec[field] == Text(Last(items)))
  {
    if items != [] { LastOfTexts(items); }
  }

  /**
   * For a form the page prepares, the record built from it holds `tags` (and
   * `agenda`) exactly when the split produced at least one piece, and then
   * holds only the last piece.
   */
  lemma OnlyLastPieceReachesCreate(form: Form, url: string)
    requires RawText(form, TagsField).Some? && RawText(form, AgendaField).Some?
    ensures var posted := PrepareSubmission(form).value;
      var rec := BuildRecord(posted, url);
      var tags := SplitTrimFilter(RawText(form, TagsField).value, TagSeparator);
      var agenda := SplitTrimFilter(RawText(form, AgendaField).value, AgendaSeparator);
      && (TagsField in rec <==> tags != [])
      && (tags != [] ==> rec[TagsField] == Text(Last(tags)))
      && (AgendaField in rec <==> agenda != [])
      && (agenda != [] ==> rec[AgendaField] == Text(Last(agenda)))
  {
    var posted := PrepareSubmission(form).value;
    FieldHoldsLastItem(posted, url, TagsField, SplitTrimFilter(RawText(form, TagsField).value, TagSeparator));
    FieldHoldsLastItem(posted, url, AgendaField, SplitTrimFilter(RawText(form, AgendaField).value, AgendaSeparator));
  }
}
