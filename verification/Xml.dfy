/** XML as the crate sees it: a list of events, well nested when it comes from a document. */
module Xml {
  import opened Bytes

  datatype Attr = Attr(key: string, value: string)

  /** `Other` stands for declarations, comments, instructions and document types. */
  datatype Event =
    | Start(name: string, attrs: seq<Attr>)
    | End(name: string)
    | Empty(name: string, attrs: seq<Attr>)
    | Text(text: string)
    | Other(raw: string)

  /** Siblings in document order: each node holds what is inside it and what follows it. */
  datatype Forest =
    | Nothing
    | Element(name: string, attrs: seq<Attr>, inside: Forest, next: Forest)
    | Hollow(name: string, attrs: seq<Attr>, next: Forest)
    | Chars(text: string, next: Forest)
    | Remark(raw: string, next: Forest)

  /** The events of a document; exactly the well-nested lists. */
  function Events(f: Forest): seq<Event> {
    match f
    case Nothing => []
    case Element(name, attrs, inside, next) => [Start(name, attrs)] + Events(inside) + [End(name)] + Events(next)
    case Hollow(name, attrs, next) => [Empty(name, attrs)] + Events(next)
    case Chars(text, next) => [Text(text)] + Events(next)
    case Remark(raw, next) => [Other(raw)] + Events(next)
  }

  /** All character data, in order. */
  function Texts(f: Forest): string {
    match f
    case Nothing => ""
    case Element(_, _, inside, next) => Texts(inside) + Texts(next)
    case Hollow(_, _, next) => Texts(next)
    case Chars(text, next) => text + Texts(next)
    case Remark(_, next) => Texts(next)
  }

  function Colon(name: string): (r: Option<nat>)
    ensures r.Some? ==> r.value < |name| && name[r.value] == ':' && ':' !in name[..r.value]
    ensures r.None? ==> ':' !in name
  {
    if name == "" then None
    else if name[0] == ':' then Some(0)
    else match Colon(name[1..])
      case None => None
      case Some(i) =>
        assert name[..i + 1] == [name[0]] + name[1..][..i];
        Some(i + 1)
  }

  /** What stands before the first colon, or nothing. */
  function Alias(name: string): string {
    match Colon(name) case None => "" case Some(i) => name[..i]
  }

  /** What stands behind the first colon, or the whole name. */
  function Local(name: string): string {
    match Colon(name) case None => name case Some(i) => name[i + 1..]
  }

  lemma SplitsAt(alias: string, rest: string)
    requires ':' !in alias
    ensures Alias(alias + ":" + rest) == alias && Local(alias + ":" + rest) == rest
  {
    var name := alias + ":" + rest;
    assert name[|alias|] == ':';
    var i := Colon(name).value;
    assert forall k :: 0 <= k < |alias| ==> name[k] == alias[k];
    assert forall k :: 0 <= k < i ==> name[k] == name[..i][k];
    assert name[..|alias|] == alias && name[|alias| + 1..] == rest;
  }
}
