/** The single-line text the classifier model reads for one e-mail: the E5
    "passage: " prefix, then seven labelled fields joined by " | ". Both the
    training loaders and the classifier build it the same way. */
module InputFormat {
  import opened Wrappers
  import opened Strings

  const E5_PREFIX: string := "passage: "

  /** The user's role in an e-mail. */
  datatype Role = Direct | CC | Hidden

  function RoleText(role: Role): (r: string)
    ensures r in {"Direct", "CC", "Hidden"}
  {
    match role
    case Direct => "Direct"
    case CC => "CC"
    case Hidden => "Hidden"
  }

  function YesNo(b: bool): (r: string)
    ensures r == "Yes" <==> b
    ensures r == "No" <==> !b
  {
    if b then "Yes" else "No"
  }

  /** `format_attachment_types`: "None" for no attachments, otherwise the
      types in order, comma-separated, in brackets. */
  function FormatAttachmentTypes(types: seq<string>): (r: string)
    ensures r == "None" <==> types == []
  {
    if types == [] then "None"
    else
      var r := "[" + Join(types, ", ") + "]";
      assert r[0] == '[';
      r
  }

  /** Reads back what `FormatAttachmentTypes` wrote. */
  function ParseAttachmentTypes(s: string): (r: Option<seq<string>>)
  {
    if s == "None" then Some([])
    else if |s| < 2 || s[0] != '[' || s[|s| - 1] != ']' then None
    else
      var pieces := Split(s[1..|s| - 1], ',');
      var rest := DropLeadingSpaces(pieces[1..]);
      if rest.None? then None else Some([pieces[0]] + rest.value)
  }

  /** Removes the one space that `", "` leaves at the front of each piece. */
  function DropLeadingSpaces(ps: seq<string>): (r: Option<seq<string>>)
    ensures r.Some? ==> |r.value| == |ps|
  {
    if ps == [] then Some([])
    else if ps[0] == [] || ps[0][0] != ' ' then None
    else
      var rest := DropLeadingSpaces(ps[1..]);
      if rest.None? then None else Some([ps[0][1..]] + rest.value)
  }

  /** Puts `l` after every piece but the last and `r` before every piece but
      the first: what joining with `l + [c] + r` leaves around each piece
      once the string is cut at the `c`s. */
  function Wrap(xs: seq<string>, l: string, r: string): (w: seq<string>)
    ensures |w| == |xs|
  {
    if |xs| <= 1 then xs
    else
      var rest := Wrap(xs[1..], l, r);
      [xs[0] + l] + [r + rest[0]] + rest[1..]
  }

  lemma {:induction false} WrapAt(xs: seq<string>, l: string, r: string, k: nat)
    requires k < |xs|
    ensures Wrap(xs, l, r)[k] == (if k > 0 then r else "") + xs[k] + (if k < |xs| - 1 then l else "")
  {
    if |xs| > 1 && k > 0 {
      WrapAt(xs[1..], l, r, k - 1);
    }
  }

  lemma JoinConsFirst(ys: seq<string>, r: string, sep: string)
    requires |ys| >= 1
    ensures Join([r + ys[0]] + ys[1..], sep) == r + Join(ys, sep)
  {
    var zs := [r + ys[0]] + ys[1..];
    assert zs[1..] == ys[1..];
  }

  /** Joining with a separator around `c` is joining the wrapped pieces
      with `c` alone. */
  lemma {:induction false} JoinWrap(xs: seq<string>, l: string, c: char, r: string)
    requires |xs| >= 1
    ensures Join(xs, l + [c] + r) == Join(Wrap(xs, l, r), [c])
  {
    if |xs| > 1 {
      var w := Wrap(xs, l, r);
      var wt := Wrap(xs[1..], l, r);
      JoinWrap(xs[1..], l, c, r);
      assert w[1..] == [r + wt[0]] + wt[1..];
      JoinConsFirst(wt, r, [c]);
    }
  }

  /** Each piece with a space in front. */
  function Spaced(xs: seq<string>): (r: seq<string>)
    ensures |r| == |xs|
  {
    if xs == [] then [] else [" " + xs[0]] + Spaced(xs[1..])
  }

  lemma {:induction false} WrapCommaSpace(xs: seq<string>)
    requires |xs| >= 1
    ensures Wrap(xs, "", " ") == [xs[0]] + Spaced(xs[1..])
  {
    if |xs| > 1 {
      WrapCommaSpace(xs[1..]);
      assert xs[0] + "" == xs[0];
    }
  }

  lemma {:induction false} DropSpacesOfSpaced(xs: seq<string>)
    ensures DropLeadingSpaces(Spaced(xs)) == Some(xs)
  {
    if xs != [] {
      DropSpacesOfSpaced(xs[1..]);
      var ps := Spaced(xs);
      assert ps[0] == " " + xs[0] && ps[1..] == Spaced(xs[1..]);
      assert ps[0][0] == ' ' && ps[0][1..] == xs[0];
      assert [xs[0]] + xs[1..] == xs;
    }
  }

  /** The attachment list survives formatting when no type contains a comma. */
  lemma AttachmentTypesRoundTrip(types: seq<string>)
    requires forall k :: 0 <= k < |types| ==> ',' !in types[k]
    ensures ParseAttachmentTypes(FormatAttachmentTypes(types)) == Some(types)
  {
    if types != [] {
      var s := FormatAttachmentTypes(types);
      var inner := Join(types, ", ");
      assert s[1..|s| - 1] == inner;
      JoinWrap(types, "", ',', " ");
      assert "" + [','] + " " == ", ";
      var w := Wrap(types, "", " ");
      forall k | 0 <= k < |w| ensures ',' !in w[k] {
        WrapAt(types, "", " ", k);
      }
      SplitJoin(w, ',');
      assert Split(s[1..|s| - 1], ',') == w;
      WrapCommaSpace(types);
      DropSpacesOfSpaced(types[1..]);
      assert w[1..] == Spaced(types[1..]);
      assert w[0] == types[0];
      assert DropLeadingSpaces(w[1..]) == Some(types[1..]);
      assert s != "None";
      assert [types[0]] + types[1..] == types;
    }
  }

  /** The seven field values, in the order they are written. */
  datatype ModelInput = ModelInput(
    role: string, massMail: string, attachmentTypes: string,
    sender: string, to: string, subject: string, body: string)

  const FIELD_LABELS: seq<string> :=
    ["Role: ", "Mass Mail: ", "Attachment Types: ", "From: ", "To: ", "Subject: ", "Body: "]

  function FieldValues(m: ModelInput): (r: seq<string>)
    ensures |r| == 7
  {
    [m.role, m.massMail, m.attachmentTypes, m.sender, m.to, m.subject, m.body]
  }

  /** The labelled fields, each "Label: value". */
  function Fields(m: ModelInput): (r: seq<string>)
    ensures |r| == 7
  {
    ["Role: " + m.role, "Mass Mail: " + m.massMail,
     "Attachment Types: " + m.attachmentTypes, "From: " + m.sender,
     "To: " + m.to, "Subject: " + m.subject, "Body: " + m.body]
  }

  /** The text `format_model_input` builds: the prefix, then the labelled
      fields in order, separated by " | ". */
  function Render(m: ModelInput): string {
    E5_PREFIX + Join(Fields(m), " | ")
  }

  /** The text between `head` and `tail` in `piece`, if it has that shape. */
  function Unwrap(piece: string, head: string, tail: string): (r: Option<string>)
    ensures r.Some? ==> piece == head + r.value + tail
  {
    if |head| + |tail| <= |piece| && piece[..|head|] == head && piece[|piece| - |tail|..] == tail then
      var v := piece[|head|..|piece| - |tail|];
      assert piece == piece[..|head|] + v + piece[|piece| - |tail|..];
      Some(v)
    else None
  }

  lemma UnwrapOf(head: string, v: string, tail: string)
    ensures Unwrap(head + v + tail, head, tail) == Some(v)
  {
    var p := head + v + tail;
    assert p[..|head|] == head && p[|p| - |tail|..] == tail;
    assert p[|head|..|p| - |tail|] == v;
  }

  /** The value of field `k`, read from the `k`-th piece between bars. */
  function FieldAt(pieces: seq<string>, k: nat): Option<string>
    requires |pieces| == 7 && k < 7
  {
    Unwrap(pieces[k], (if k > 0 then " " else "") + FIELD_LABELS[k], if k < 6 then " " else "")
  }

  /** Reads the seven values back out of a rendered model input. */
  function Parse(s: string): (r: Option<ModelInput>)
    ensures r.Some? ==> StartsWith(s, E5_PREFIX)
  {
    if !StartsWith(s, E5_PREFIX) then None
    else
      var pieces := Split(s[|E5_PREFIX|..], '|');
      if |pieces| != 7 then None
      else
        var v0, v1, v2, v3 := FieldAt(pieces, 0), FieldAt(pieces, 1), FieldAt(pieces, 2), FieldAt(pieces, 3);
        var v4, v5, v6 := FieldAt(pieces, 4), FieldAt(pieces, 5), FieldAt(pieces, 6);
        if v0.None? || v1.None? || v2.None? || v3.None? || v4.None? || v5.None? || v6.None? then None
        else Some(ModelInput(v0.value, v1.value, v2.value, v3.value, v4.value, v5.value, v6.value))
  }

  /** No value contains the field separator's bar. */
  predicate BarFree(m: ModelInput) {
    forall k :: 0 <= k < 7 ==> '|' !in FieldValues(m)[k]
  }

  /** Cutting the rendered text at its bars gives the labelled fields, each
      with the spaces around the bars still attached. */
  lemma {:induction false} PiecesOfRender(m: ModelInput)
    requires BarFree(m)
    ensures Split(Render(m)[|E5_PREFIX|..], '|') == Wrap(Fields(m), " ", " ")
  {
    var f := Fields(m);
    var w := Wrap(f, " ", " ");
    assert Render(m)[|E5_PREFIX|..] == Join(w, "|") by {
      JoinWrap(f, " ", '|', " ");
      assert " " + ['|'] + " " == " | ";
    }
    forall k | 0 <= k < 7 ensures '|' !in w[k] {
      WrappedBarFree(m, k);
    }
    SplitJoin(w, '|');
  }

  lemma WrappedBarFree(m: ModelInput, k: nat)
    requires BarFree(m) && k < 7
    ensures '|' !in Wrap(Fields(m), " ", " ")[k]
  {
    var w := Wrap(Fields(m), " ", " ");
    WrapAt(Fields(m), " ", " ", k);
    FieldIsLabelled(m, k);
    var head := if k > 0 then " " else "";
    var tail := if k < 6 then " " else "";
    assert w[k] == head + (FIELD_LABELS[k] + FieldValues(m)[k]) + tail;
    assert '|' !in FieldValues(m)[k];
  }

  /** The k-th field is the k-th label followed by the k-th value. */
  lemma FieldIsLabelled(m: ModelInput, k: nat)
    requires k < 7
    ensures Fields(m)[k] == FIELD_LABELS[k] + FieldValues(m)[k]
    ensures '|' !in FIELD_LABELS[k]
  {
  }

  /** When no value contains '|', the rendered text determines every field:
      the layout is the fixed seven-field order, behind the prefix. */
  lemma ParseRender(m: ModelInput)
    requires BarFree(m)
    ensures Parse(Render(m)) == Some(m)
  {
    var s := Render(m);
    assert StartsWith(s, E5_PREFIX) by {
      assert s[..|E5_PREFIX|] == E5_PREFIX;
    }
    PiecesOfRender(m);
    var pieces := Split(s[|E5_PREFIX|..], '|');
    var v := FieldValues(m);
    forall k | 0 <= k < 7 ensures FieldAt(pieces, k) == Some(v[k]) {
      FieldReadsBack(m, k);
    }
  }

  /** The k-th wrapped field gives back the k-th value. */
  lemma FieldReadsBack(m: ModelInput, k: nat)
    requires k < 7
    ensures FieldAt(Wrap(Fields(m), " ", " "), k) == Some(FieldValues(m)[k])
  {
    var f := Fields(m);
    var w := Wrap(f, " ", " ");
    var v := FieldValues(m);
    WrapAt(f, " ", " ", k);
    FieldIsLabelled(m, k);
    var head := (if k > 0 then " " else "") + FIELD_LABELS[k];
    var tail := if k < 6 then " " else "";
    assert w[k] == head + v[k] + tail;
    UnwrapOf(head, v[k], tail);
  }

  /** A list rendered by `FormatAttachmentTypes` contains a bar only when one
      of the types does. */
  lemma AttachmentTypesBarFree(types: seq<string>)
    requires forall k :: 0 <= k < |types| ==> '|' !in types[k]
    ensures '|' !in FormatAttachmentTypes(types)
  {
    if types != [] {
      JoinBarFree(types, ", ");
    }
  }

  lemma {:induction false} JoinBarFree(xs: seq<string>, sep: string)
    requires '|' !in sep
    requires forall k :: 0 <= k < |xs| ==> '|' !in xs[k]
    ensures '|' !in Join(xs, sep)
  {
    if |xs| > 1 {
      JoinBarFree(xs[1..], sep);
    }
  }

  /** What both `format_model_input` versions build once the role is known:
      "Yes"/"No" for the mass-mail flag and `attachment_types or []` for
      the attachment list. The CC header is not a field of its own. */
  function FormatWithRole(role: Role, subject: string, body: string, sender: string,
                          to: string, massMail: bool, attachmentTypes: Option<seq<string>>): (r: string)
    ensures StartsWith(r, E5_PREFIX)
  {
    var m := ModelInput(RoleText(role), YesNo(massMail),
                        FormatAttachmentTypes(attachmentTypes.GetOr([])), sender, to, subject, body);
    assert (E5_PREFIX + Join(Fields(m), " | "))[..|E5_PREFIX|] == E5_PREFIX;
    Render(m)
  }

  /** Free text without the bar that separates the fields. */
  predicate NoBar(s: string) {
    '|' !in s
  }

  /** Every field reads back out of the formatted input, in the fixed order,
      as long as the header texts and the attachment types contain no '|';
      with no ',' in the types, so does the attachment list itself. */
  lemma {:induction false} FormatWithRoleReadBack(role: Role, subject: string, body: string, sender: string,
                                                  to: string, massMail: bool, attachmentTypes: Option<seq<string>>)
    requires NoBar(subject) && NoBar(body) && NoBar(sender) && NoBar(to)
    requires forall k :: 0 <= k < |attachmentTypes.GetOr([])| ==> NoBar(attachmentTypes.GetOr([])[k])
    ensures Parse(FormatWithRole(role, subject, body, sender, to, massMail, attachmentTypes))
         == Some(ModelInput(RoleText(role), YesNo(massMail),
                            FormatAttachmentTypes(attachmentTypes.GetOr([])), sender, to, subject, body))
    ensures (forall k :: 0 <= k < |attachmentTypes.GetOr([])| ==> ',' !in attachmentTypes.GetOr([])[k]) ==>
              ParseAttachmentTypes(Parse(FormatWithRole(role, subject, body, sender, to, massMail, attachmentTypes)).value.attachmentTypes)
              == Some(attachmentTypes.GetOr([]))
  {
    var types := attachmentTypes.GetOr([]);
    var m := ModelInput(RoleText(role), YesNo(massMail), FormatAttachmentTypes(types), sender, to, subject, body);
    AttachmentTypesBarFree(types);
    assert '|' !in RoleText(role) && '|' !in YesNo(massMail);
    assert BarFree(m);
    ParseRender(m);
    if forall k :: 0 <= k < |types| ==> ',' !in types[k] {
      AttachmentTypesRoundTrip(types);
    }
  }

  /** No attachment list and an empty one give the same text. */
  lemma NoneSameAsEmpty(role: Role, subject: string, body: string, sender: string, to: string, massMail: bool)
    ensures FormatWithRole(role, subject, body, sender, to, massMail, None)
         == FormatWithRole(role, subject, body, sender, to, massMail, Some([]))
  {
  }
}
