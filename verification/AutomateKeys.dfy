/**
 The text of the automation cache's Redis keys. The model keeps one map per prefix and
 kind of entry; the real, flat key space keeps them apart just as well.
 */
module AutomateKeys {
  import opened AutomateStore

  datatype Entry = Base | Group | ActionOf

  function Prefix(kind: Kind): string {
    if kind.One? then "one" else "multiple"
  }

  function Type(e: Entry): string {
    match e
    case Base => "_"
    case Group => "_group_"
    case ActionOf => "_action_"
  }

  function Head(kind: Kind, e: Entry): string {
    "automate:v3:" + Prefix(kind) + ":" + Type(e) + ":"
  }

  function Text(kind: Kind, e: Entry, id: string): string {
    Head(kind, e) + id
  }

  /** Position 12 tells the prefixes apart, and the character after the type's first one the entries. */
  lemma HeadMarks(kind: Kind, e: Entry)
    ensures |Head(kind, e)| > (if kind.One? then 17 else 22)
    ensures Head(kind, e)[12] == if kind.One? then 'o' else 'm'
    ensures Head(kind, e)[if kind.One? then 17 else 22] ==
            match e case Base => ':' case Group => 'g' case ActionOf => 'a'
  {
  }

  /** No two entries share a key, whatever the ids look like. */
  lemma TextInjective(kind: Kind, e: Entry, id: string, kind': Kind, e': Entry, id': string)
    requires Text(kind, e, id) == Text(kind', e', id')
    ensures kind == kind' && e == e' && id == id'
  {
    HeadMarks(kind, e);
    HeadMarks(kind', e');
    var t, t' := Text(kind, e, id), Text(kind', e', id');
    assert t[12] == Head(kind, e)[12] && t'[12] == Head(kind', e')[12];
    var m := if kind.One? then 17 else 22;
    assert t[m] == Head(kind, e)[m] && t'[m] == Head(kind', e')[m];
    assert id == t[|Head(kind, e)|..] && id' == t'[|Head(kind', e')|..];
  }
}
