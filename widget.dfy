/** The notes list adapter: an ordered list of selectable note wrappers, and
    the rendering of one wrapper into a (new or recycled) row view.
 */
module Widget {
  import opened Hashtag
  import Decimal

  /** `Note.getUpdatedAt()`, as a point in time. */
  type Timestamp = int

  /** The note a row shows; the adapter only reads it. */
  datatype Note = Note(id: int, content: string, updatedAt: Timestamp)

  /** The two background colours a row is painted with. */
  datatype Background = SelectedNote | Transparent

  /** Everything a row displays: id label, content label with its coloured
      spans, date label and background. */
  datatype RowDisplay = RowDisplay(
    idText: string,
    content: string,
    spans: seq<Span>,
    dateText: string,
    background: Background)

  /** What a row shows for a note whose selection flag is `selected`. */
  function Render(note: Note, selected: bool, formatDate: Timestamp -> string): (d: RowDisplay)
    ensures d.content == note.content
    ensures forall sp :: sp in d.spans <==> IsTagSpan(note.content, sp)
    ensures Ordered(d.spans)
    ensures Decimal.IsCanonicalIntText(d.idText)
    ensures Decimal.IsIntText(d.idText) && Decimal.ParseInt(d.idText) == note.id
    ensures d.dateText == formatDate(note.updatedAt)
    ensures d.background == SelectedNote <==> selected
  {
    Decimal.ParseIntToString(note.id);
    RowDisplay(
      Decimal.IntToString(note.id),
      note.content,
      HashtagSpans(note.content),
      formatDate(note.updatedAt),
      if selected then SelectedNote else Transparent)
  }

  /** Toggling the selection flag changes the background and nothing else. */
  lemma RenderSelectionOnlyBackground(note: Note, formatDate: Timestamp -> string)
    ensures Render(note, true, formatDate).(background := Transparent) == Render(note, false, formatDate)
    ensures Render(note, true, formatDate).background != Render(note, false, formatDate).background
  {
  }

  /** Two notes shown identically have the same id, content and date text:
      a recycled row keeps nothing of the note it showed before. */
  lemma RenderDeterminesNote(n1: Note, n2: Note, sel1: bool, sel2: bool, formatDate: Timestamp -> string)
    requires Render(n1, sel1, formatDate) == Render(n2, sel2, formatDate)
    ensures n1.id == n2.id && n1.content == n2.content && sel1 == sel2
    ensures formatDate(n1.updatedAt) == formatDate(n2.updatedAt)
  {
    Decimal.IntToStringInjective(n1.id, n2.id);
  }

  /** A note together with its mutable selection flag. */
  class NoteViewWrapper {
    const note: Note
    var isSelected: bool

    constructor (note: Note)
      ensures this.note == note && !isSelected
    {
      this.note := note;
      isSelected := false;
    }

    method SetSelected(isSelected: bool)
      modifies this`isSelected
      ensures this.isSelected == isSelected
    {
      this.isSelected := isSelected;
    }
  }

  /** One row view of the list: its three labels and its background, plus the
      tag under which it keeps its view holder. */
  class Row {
    var idText: string
    var content: string
    var spans: seq<Span>
    var dateText: string
    var background: Background
    var tag: ViewHolder?

    /** A row freshly inflated from the row template, without a tag yet. */
    constructor Inflate()
      ensures tag == null
    {
      idText, content, spans, dateText := "", "", [], "";
      background := Transparent;
      tag := null;
    }

    function Display(): RowDisplay
      reads this
    {
      RowDisplay(idText, content, spans, dateText, background)
    }
  }

  /** The cached slots of a row: the labels belong to `parent`. */
  class ViewHolder {
    const parent: Row

    constructor (parent: Row)
      ensures this.parent == parent
    {
      this.parent := parent;
    }
  }

  /** The row carries a view holder that points back to it. */
  predicate HasHolder(row: Row)
    reads row, row.tag
  {
    row.tag != null && row.tag.parent == row
  }

  class NotesAdapter {
    const data: seq<NoteViewWrapper>
    /** The shared medium date and medium time formatter. */
    const formatDate: Timestamp -> string

    constructor (data: seq<NoteViewWrapper>, formatDate: Timestamp -> string)
      ensures this.data == data && this.formatDate == formatDate
    {
      this.data := data;
      this.formatDate := formatDate;
    }

    function GetCount(): (n: nat)
      reads this
      ensures n == |data|
    {
      |data|
    }

    function GetItem(position: int): (w: NoteViewWrapper)
      reads this
      requires 0 <= position < GetCount()
      ensures w in data && w == data[position]
    {
      data[position]
    }

    function GetItemId(position: int): (id: int)
      ensures id == position
    {
      position
    }

    /** Shows the wrapper at `position` in `convertView` when the host offers a
        recycled row, otherwise in a newly inflated row that gets a holder. */
    method GetView(position: int, convertView: Row?) returns (row: Row)
      requires 0 <= position < |data|
      requires convertView != null ==> HasHolder(convertView)
      modifies convertView
      ensures convertView != null ==> row == convertView && row.tag == old(convertView.tag)
      ensures convertView == null ==> fresh(row) && fresh(row.tag)
      ensures HasHolder(row)
      ensures forall i :: 0 <= i < |data| ==> data[i].isSelected == old(data[i].isSelected)
      ensures row.Display() == Render(data[position].note, data[position].isSelected, formatDate)
    {
      var holder: ViewHolder;
      if convertView == null {
        row := new Row.Inflate();
        holder := new ViewHolder(row);
        row.tag := holder;
      } else {
        row := convertView;
        holder := convertView.tag;
      }
      var wrapper := data[position];
      holder.parent.idText := Decimal.IntToString(wrapper.note.id);
      var spans := HighlightSpans(wrapper.note.content);
      holder.parent.content := wrapper.note.content;
      holder.parent.spans := spans;
      holder.parent.dateText := formatDate(wrapper.note.updatedAt);
      if wrapper.isSelected {
        holder.parent.background := SelectedNote;
      } else {
        holder.parent.background := Transparent;
      }
    }

    /** Rendering the same position twice in a row, the second time on the
        row the first call returned, keeps the row, its holder and everything
        it displays. */
    method GetViewTwice(position: int, convertView: Row?) returns (first: RowDisplay, row: Row)
      requires 0 <= position < |data|
      requires convertView != null ==> HasHolder(convertView)
      modifies convertView
      ensures convertView != null ==> row == convertView && row.tag == old(convertView.tag)
      ensures convertView == null ==> fresh(row)
      ensures HasHolder(row)
      ensures row.Display() == first
      ensures first == Render(data[position].note, data[position].isSelected, formatDate)
    {
      var row1 := GetView(position, convertView);
      first := row1.Display();
      row := GetView(position, row1);
    }
  }
}
