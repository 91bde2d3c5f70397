/**
 * The milestone record, the form draft and the pure operations the page's
 * handlers apply to them: per-field validation, the edit-mode replace, the
 * create-mode append and the delete-by-id filter.
 */
module Milestones {
  import opened Wrappers
  import Seqs

  /** One timeline entry. `id` is `None` for the empty form (JavaScript `null`). */
  datatype Milestone = Milestone(
    id: Option<int>,
    date: string,
    name: string,
    category: string,
    note: string,
    imageBase64: string)

  /** The draft every "add" starts from. */
  const EmptyForm: Milestone := Milestone(None, "", "", "", "", "")

  /** The fields the form's text inputs write by name: `date`, `category` and `note`. The record's
      `name` has no input on the page, so no event writes it. */
  datatype Field = DateField | CategoryField | NoteField

  const Required: string := "This field is required"

  function Get(m: Milestone, f: Field): string {
    match f
    case DateField => m.date
    case CategoryField => m.category
    case NoteField => m.note
  }

  /** `{ ...formData, [name]: value }`: one field takes the new value, nothing else changes. */
  function SetField(m: Milestone, f: Field, v: string): (r: Milestone)
    ensures Get(r, f) == v
    ensures forall g :: g != f ==> Get(r, g) == Get(m, g)
    ensures r.id == m.id && r.name == m.name && r.imageBase64 == m.imageBase64
  {
    match f
    case DateField => m.(date := v)
    case CategoryField => m.(category := v)
    case NoteField => m.(note := v)
  }

  // ---------------------------------------------------------------------------
  // String.prototype.trim

  /** The characters JavaScript's `trim` removes: WhiteSpace and LineTerminator code points. */
  predicate IsJsWhitespace(c: char) {
    || c == '\t' || c == '\n' || c == '\U{000B}' || c == '\U{000C}' || c == '\r'
    || c == ' ' || c == '\U{00A0}' || c == '\U{1680}'
    || ('\U{2000}' <= c <= '\U{200A}')
    || c == '\U{2028}' || c == '\U{2029}' || c == '\U{202F}' || c == '\U{205F}'
    || c == '\U{3000}' || c == '\U{FEFF}'
  }

  /** A string made only of whitespace (the empty string included). */
  predicate IsBlank(s: string) {
    forall i :: 0 <= i < |s| ==> IsJsWhitespace(s[i])
  }

  function TrimStart(s: string): (r: string)
    ensures |r| <= |s| && r == s[|s| - |r|..]
    ensures forall i :: 0 <= i < |s| - |r| ==> IsJsWhitespace(s[i])
    ensures r != [] ==> !IsJsWhitespace(r[0])
  {
    if s != [] && IsJsWhitespace(s[0]) then TrimStart(s[1..]) else s
  }

  function TrimEnd(s: string): (r: string)
    ensures |r| <= |s| && r == s[..|r|]
    ensures forall i :: |r| <= i < |s| ==> IsJsWhitespace(s[i])
    ensures r != [] ==> !IsJsWhitespace(r[|r| - 1])
  {
    if s != [] && IsJsWhitespace(s[|s| - 1]) then TrimEnd(s[..|s| - 1]) else s
  }

  /** How many characters `trim` removes from the front of `s`. */
  function LeadingBlanks(s: string): nat {
    |s| - |TrimStart(s)|
  }

  /** The characters of a suffix, by their positions in the whole string. */
  lemma SuffixIndices(s: string, t: string)
    requires |t| <= |s| && t == s[|s| - |t|..]
    ensures forall i :: 0 <= i < |t| ==> t[i] == s[|s| - |t| + i]
  {
  }

  /** `trim`: the infix of `s` between its leading and its trailing whitespace. */
  function Trim(s: string): (r: string)
    ensures LeadingBlanks(s) + |r| <= |s|
    ensures forall i :: 0 <= i < |r| ==> r[i] == s[LeadingBlanks(s) + i]
    ensures forall i :: 0 <= i < LeadingBlanks(s) ==> IsJsWhitespace(s[i])
    ensures forall i :: LeadingBlanks(s) + |r| <= i < |s| ==> IsJsWhitespace(s[i])
  {
    var t := TrimStart(s);
    var r := TrimEnd(t);
    SuffixIndices(s, t);
    r
  }

  /** `trim` also removes trailing whitespace: a non-empty result ends in a non-whitespace character. */
  lemma TrimEndsNonBlank(s: string)
    ensures Trim(s) != [] ==> !IsJsWhitespace(Trim(s)[|Trim(s)| - 1])
  {
    var r := TrimEnd(TrimStart(s));
    assert Trim(s) == r;
  }

  /** `trim` yields the empty (falsy) string exactly for blank strings. */
  lemma TrimEmptyIffBlank(s: string)
    ensures Trim(s) == "" <==> IsBlank(s)
  {
  }

  // ---------------------------------------------------------------------------
  // Validation

  /** The draft may be committed: date and category are non-empty and the note is not blank. */
  predicate IsComplete(d: Milestone) {
    d.date != "" && d.category != "" && !IsBlank(d.note)
  }

  /** The error map `handleSave` builds: "This field is required" for each missing required field. */
  function Validate(d: Milestone): (errs: map<Field, string>)
    ensures DateField in errs <==> d.date == ""
    ensures CategoryField in errs <==> d.category == ""
    ensures NoteField in errs <==> Trim(d.note) == ""
    ensures forall f :: f in errs ==> errs[f] == Required
    ensures errs == map[] <==> (d.date != "" && d.category != "" && Trim(d.note) != "")
  {
    var e1: map<Field, string> := if d.date == "" then map[DateField := Required] else map[];
    var e2 := if d.category == "" then e1[CategoryField := Required] else e1;
    var e3 := if Trim(d.note) == "" then e2[NoteField := Required] else e2;
    assert e3 == map[] <==> DateField !in e3 && CategoryField !in e3 && NoteField !in e3 by {
      if e3 != map[] {
        var f :| f in e3;
      }
    }
    e3
  }

  /** A note counts as missing exactly when it is blank, so the map is empty exactly for a complete draft. */
  lemma ValidateMeaning(d: Milestone)
    ensures NoteField in Validate(d) <==> IsBlank(d.note)
    ensures Validate(d) == map[] <==> IsComplete(d)
  {
    TrimEmptyIffBlank(d.note);
  }

  /** A draft with every required field missing gets the message on each of the three fields. */
  lemma AllMissingRejected(d: Milestone)
    requires d.date == "" && d.category == "" && IsBlank(d.note)
    ensures forall f :: f in Validate(d) && Validate(d)[f] == Required
  {
    TrimEmptyIffBlank(d.note);
    forall f ensures f in Validate(d) {
      match f
      case DateField =>
      case CategoryField =>
      case NoteField =>
    }
  }

  /** The empty form has no id, blank text and no image, so saving it untouched reports all three fields. */
  lemma EmptyFormRejected()
    ensures EmptyForm.id == None && EmptyForm.name == "" && EmptyForm.imageBase64 == ""
    ensures forall f :: Get(EmptyForm, f) == ""
    ensures forall f :: f in Validate(EmptyForm) && Validate(EmptyForm)[f] == Required
  {
    var d := EmptyForm;
    forall f ensures Get(d, f) == "" {
      match f
      case DateField =>
      case CategoryField =>
      case NoteField =>
    }
    AllMissingRejected(d);
  }

  /** `handleChange`'s error update: a set message for the touched field becomes "", the rest stay. */
  function ClearError(errs: map<Field, string>, f: Field): (r: map<Field, string>)
    ensures r.Keys == errs.Keys
    ensures f in errs ==> r[f] == ""
    ensures forall g :: g in errs && g != f ==> r[g] == errs[g]
  {
    if f in errs && errs[f] != "" then errs[f := ""] else errs
  }

  // ---------------------------------------------------------------------------
  // The collection

  function Ids(c: seq<Milestone>): (ids: seq<Option<int>>)
    ensures |ids| == |c|
  {
    seq(|c|, i requires 0 <= i < |c| => c[i].id)
  }

  /** No two milestones of the collection share an id. */
  predicate UniqueIds(c: seq<Milestone>) {
    forall i, j :: 0 <= i < j < |c| ==> c[i].id != c[j].id
  }

  /** Edit-mode commit: `mileStones.map(m => m.id === formData.id ? formData : m)`. */
  function ReplaceById(c: seq<Milestone>, d: Milestone): (r: seq<Milestone>)
    ensures |r| == |c|
    ensures forall i :: 0 <= i < |c| ==> r[i] == (if c[i].id == d.id then d else c[i])
    decreases |c|
  {
    if c == [] then []
    else
      var last := c[|c| - 1];
      ReplaceById(c[..|c| - 1], d) + [if last.id == d.id then d else last]
  }

  /** Create-mode commit: `[...mileStones, { ...formData, id: freshId }]`. */
  function AppendNew(c: seq<Milestone>, d: Milestone, freshId: int): (r: seq<Milestone>)
    ensures |r| == |c| + 1
    ensures r[..|c|] == c
    ensures r[|c|].id == Some(freshId) && r[|c|].(id := d.id) == d
  {
    c + [d.(id := Some(freshId))]
  }

  function IdDiffers(id: Option<int>): Milestone -> bool {
    (m: Milestone) => m.id != id
  }

  /** `handleDelete`: `mileStones.filter(m => m.id !== formData.id)`. */
  function RemoveById(c: seq<Milestone>, id: Option<int>): (r: seq<Milestone>)
    ensures forall m :: m in r <==> m in c && m.id != id
    ensures id !in Ids(c) ==> r == c
  {
    if id !in Ids(c) then
      forall i | 0 <= i < |c| ensures IdDiffers(id)(c[i]) {
        assert Ids(c)[i] == c[i].id;
      }
      Seqs.FilterKeepsAll(c, IdDiffers(id));
      Seqs.Filter(c, IdDiffers(id))
    else
      Seqs.Filter(c, IdDiffers(id))
  }

  // ---------------------------------------------------------------------------
  // Properties of the commits

  /** Editing never changes the sequence of ids, so it keeps them unique. */
  lemma ReplaceKeepsIds(c: seq<Milestone>, d: Milestone)
    ensures Ids(ReplaceById(c, d)) == Ids(c)
    ensures UniqueIds(c) ==> UniqueIds(ReplaceById(c, d))
  {
    var r := ReplaceById(c, d);
    assert forall i :: 0 <= i < |c| ==> Ids(r)[i] == r[i].id == c[i].id == Ids(c)[i];
  }

  /** With unique ids, editing the one element carrying the draft's id is a single-index update. */
  lemma ReplaceIsPointUpdate(c: seq<Milestone>, d: Milestone, k: nat)
    requires UniqueIds(c) && k < |c| && c[k].id == d.id
    ensures ReplaceById(c, d) == c[k := d]
  {
    var r := ReplaceById(c, d);
    forall i | 0 <= i < |c| ensures r[i] == c[k := d][i] {
      if i < k {
        assert c[i].id != c[k].id;
      } else if i > k {
        assert c[k].id != c[i].id;
      }
    }
  }

  /** Adding with a fresh id extends the ids by that id, and so keeps them unique. */
  lemma AppendFreshKeepsUnique(c: seq<Milestone>, d: Milestone, freshId: int)
    ensures Ids(AppendNew(c, d, freshId)) == Ids(c) + [Some(freshId)]
    ensures UniqueIds(c) && Some(freshId) !in Ids(c) ==> UniqueIds(AppendNew(c, d, freshId))
  {
    var r := AppendNew(c, d, freshId);
    assert forall i :: 0 <= i < |c| ==> r[i] == c[i] && Ids(c)[i] == c[i].id;
    if UniqueIds(c) && Some(freshId) !in Ids(c) {
      forall i, j | 0 <= i < j < |r| ensures r[i].id != r[j].id {
        if j == |c| {
          assert Ids(c)[i] == r[i].id;
        }
      }
    }
  }

  /** `handleSave`'s commit of a complete draft in the form's mode; with a fresh id when adding, it keeps ids unique. */
  function Commit(c: seq<Milestone>, d: Milestone, isEdit: bool, freshId: int): (r: seq<Milestone>)
    ensures UniqueIds(c) && (isEdit || Some(freshId) !in Ids(c)) ==> UniqueIds(r)
  {
    if isEdit then
      ReplaceKeepsIds(c, d);
      ReplaceById(c, d)
    else
      AppendFreshKeepsUnique(c, d, freshId);
      AppendNew(c, d, freshId)
  }

  /** Deleting keeps the surviving elements in their original order: it distributes over concatenation. */
  lemma RemoveConcat(a: seq<Milestone>, b: seq<Milestone>, id: Option<int>)
    ensures RemoveById(a + b, id) == RemoveById(a, id) + RemoveById(b, id)
  {
    Seqs.FilterConcat(a, b, IdDiffers(id));
  }

  /** Deleting never introduces a duplicate id. */
  lemma RemoveKeepsUnique(c: seq<Milestone>, id: Option<int>)
    requires UniqueIds(c)
    ensures UniqueIds(RemoveById(c, id))
  {
    Seqs.FilterKeepsOrder(c, IdDiffers(id), (x: Milestone, y: Milestone) => x.id != y.id);
  }

  /** With unique ids, deleting an id that is present removes exactly one element. */
  lemma {:induction false} RemoveExactlyOne(c: seq<Milestone>, id: Option<int>)
    requires UniqueIds(c) && id in Ids(c)
    ensures |RemoveById(c, id)| == |c| - 1
    decreases |c|
  {
    var init, last := c[..|c| - 1], c[|c| - 1];
    var p := IdDiffers(id);
    assert Seqs.Filter(c, p) == Seqs.Filter(init, p) + (if p(last) then [last] else []) by {
      assert c == init + [last];
      Seqs.FilterSnoc(init, last, p);
    }
    assert UniqueIds(init) by {
      forall i, j | 0 <= i < j < |init| ensures init[i].id != init[j].id {
        assert init[i] == c[i] && init[j] == c[j];
      }
    }
    if last.id == id {
      assert id !in Ids(init) by {
        forall i | 0 <= i < |init| ensures Ids(init)[i] != id {
          assert Ids(init)[i] == c[i].id && c[i].id != c[|c| - 1].id;
        }
      }
      assert RemoveById(init, id) == init;
    } else {
      assert id in Ids(init) by {
        var k :| 0 <= k < |c| && Ids(c)[k] == id;
        assert k < |init| && Ids(init)[k] == id;
      }
      RemoveExactlyOne(init, id);
    }
  }
}
