/** `generate_attachment_list`: an HTML table with one row per attachment,
    or the empty string when there are none. */
module AttachmentList {
  import opened Strings
  import opened Messages

  /** `hurry.filesize.size`, which the model takes as given. */
  type HumanSize = int -> string

  const TableOpen := "<table style=\"font-family: serif; margin-bottom: 20px;border-spacing: 1rem 0;text-align: left;\">"
  const TableHead := "<thead><tr><th colspan=\"3\">Attachments:</th></tr><tr><th scope=\"col\">Name</th><th scope=\"col\">Size</th><th scope=\"col\">MD5sum</th></tr></thead>"
  const TableClose := "</table>"

  function Row(size: HumanSize, at: Attachment): string {
    "<tr><td>" + at.name + "</td><td>" + size(at.size) + "</td><td>" + at.md5sum + "</td></tr>"
  }

  function Rows(size: HumanSize, ats: seq<Attachment>): string
    decreases |ats|
  {
    if ats == [] then "" else Rows(size, ats[..|ats| - 1]) + Row(size, ats[|ats| - 1])
  }

  function Table(size: HumanSize, ats: seq<Attachment>): string {
    if ats == [] then "" else TableOpen + TableHead + Rows(size, ats) + TableClose
  }

  method GenerateAttachmentList(size: HumanSize, attachments: seq<Attachment>) returns (html: string)
    ensures html == Table(size, attachments)
  {
    html := "";
    if |attachments| > 0 {
      html := html + TableOpen;
      html := html + TableHead;
      ghost var head := html;
      var i := 0;
      while i < |attachments|
        invariant 0 <= i <= |attachments|
        invariant html == head + Rows(size, attachments[..i])
      {
        ExtendRows(size, attachments, i, head, html);
        html := html + Row(size, attachments[i]);
        i := i + 1;
      }
      CloseTable(size, attachments, head, html);
      html := html + TableClose;
    }
  }

  /** One loop step: the accumulated text gains the next row. */
  lemma ExtendRows(size: HumanSize, ats: seq<Attachment>, i: nat, head: string, html: string)
    requires i < |ats| && html == head + Rows(size, ats[..i])
    ensures html + Row(size, ats[i]) == head + Rows(size, ats[..i + 1])
  {
    RowsSnoc(size, ats, i);
  }

  /** After the last row, `</table>` completes the table. */
  lemma CloseTable(size: HumanSize, ats: seq<Attachment>, head: string, html: string)
    requires ats != [] && head == TableOpen + TableHead
    requires html == head + Rows(size, ats[..|ats|])
    ensures html + TableClose == Table(size, ats)
  {
    assert ats[..|ats|] == ats;
  }

  /** The table is empty exactly when there is no attachment, and otherwise
      is framed by the opening tag and the header row and then `</table>`. */
  lemma TableShape(size: HumanSize, ats: seq<Attachment>)
    ensures Table(size, ats) == "" <==> ats == []
    ensures ats != [] ==> StartsWith(Table(size, ats), TableOpen + TableHead)
  {
    if ats != [] {
      var t := Table(size, ats);
      assert t[..|TableOpen + TableHead|] == TableOpen + TableHead;
    }
  }

  /** The rows of two lists are the rows of the first, then those of the second,
      so each attachment contributes its own row in list order. */
  lemma {:induction false} RowsAppend(size: HumanSize, a: seq<Attachment>, b: seq<Attachment>)
    ensures Rows(size, a + b) == Rows(size, a) + Rows(size, b)
    decreases |b|
  {
    if b == [] {
      assert a + b == a;
    } else {
      var init, last := b[..|b| - 1], b[|b| - 1];
      var ai := a + init;
      assert a + b == ai + [last];
      RowsLast(size, ai, last);
      RowsAppend(size, a, init);
      assert init + [last] == b;
      RowsLast(size, init, last);
    }
  }

  /** One more attachment at the end adds its row at the end. */
  lemma RowsLast(size: HumanSize, ats: seq<Attachment>, at: Attachment)
    ensures Rows(size, ats + [at]) == Rows(size, ats) + Row(size, at)
  {
    assert (ats + [at])[..|ats|] == ats;
  }

  /** Taking one more attachment adds its row at the end. */
  lemma RowsSnoc(size: HumanSize, ats: seq<Attachment>, i: nat)
    requires i < |ats|
    ensures Rows(size, ats[..i + 1]) == Rows(size, ats[..i]) + Row(size, ats[i])
  {
    assert ats[..i + 1][..i] == ats[..i];
  }

  /** Row `i` of the table sits where the rows before it end. */
  lemma RowAt(size: HumanSize, ats: seq<Attachment>, i: nat)
    requires i < |ats|
    ensures Rows(size, ats) == Rows(size, ats[..i]) + Row(size, ats[i]) + Rows(size, ats[i + 1..])
  {
    assert ats == ats[..i + 1] + ats[i + 1..];
    RowsAppend(size, ats[..i + 1], ats[i + 1..]);
    RowsSnoc(size, ats, i);
  }
}
