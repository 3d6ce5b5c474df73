/** Which fields are indexed: the identifiers listed in the struct's
    `#[index_fields(...)]` attributes. Two readers of the attributes exist in
    the generator, one filling a set (for the patch methods) and one pushing
    onto a list (for the index struct); both collect the same names. */
module Attributes {

  import opened Layout

  datatype Option<T> = None | Some(value: T)

  /** One path segment; `hasArguments` is true for segments such as `Vec<u8>`. */
  datatype Segment = Segment(ident: string, hasArguments: bool)

  datatype Path = Path(leadingColon: bool, segments: seq<Segment>)

  /** The structured form of an attribute, as `parse_meta` gives it. */
  datatype Meta =
    | MetaPath(path: Path)
    | MetaList(path: Path, nested: seq<NestedMeta>)
    | MetaNameValue(path: Path)

  datatype NestedMeta = Nested(meta: Meta) | Lit(text: string)

  /** An attribute on the struct: its path and the result of `parse_meta`
      (None when the attribute's tokens do not parse as a meta item). */
  datatype Attribute = Attribute(path: Path, parsed: Option<Meta>)

  /** `Path::get_ident`: a single segment without arguments or a leading `::`. */
  function GetIdent(p: Path): Option<string>
  {
    if !p.leadingColon && |p.segments| == 1 && !p.segments[0].hasArguments
    then Some(p.segments[0].ident)
    else None
  }

  /** An `index_fields(...)` attribute that parses as a list. */
  predicate IsIndexFieldsList(a: Attribute)
  {
    GetIdent(a.path) == Some("index_fields") && a.parsed.Some? && a.parsed.value.MetaList?
  }

  /** The bare identifier named by a list item, if it is one. */
  function ItemIdent(n: NestedMeta): Option<string>
  {
    if n.Nested? && n.meta.MetaPath? then GetIdent(n.meta.path) else None
  }

  /** Items [0, upTo) of attribute a include the bare identifier `name`. */
  ghost predicate ListedBefore(a: Attribute, name: string, upTo: nat)
  {
    IsIndexFieldsList(a) &&
    exists j :: 0 <= j < upTo && j < |a.parsed.value.nested| && ItemIdent(a.parsed.value.nested[j]) == Some(name)
  }

  ghost predicate ListedBy(a: Attribute, name: string)
  {
    IsIndexFieldsList(a) && ListedBefore(a, name, |a.parsed.value.nested|)
  }

  /** Some attribute in attrs[0, upTo) lists `name`. */
  ghost predicate ListedIn(attrs: seq<Attribute>, name: string, upTo: nat)
  {
    exists i :: 0 <= i < upTo && i < |attrs| && ListedBy(attrs[i], name)
  }

  /** parse_index_fields: every bare identifier inside any `index_fields(...)`
      attribute, collected into a set, so repeated names collapse. */
  method ParseIndexFields(attrs: seq<Attribute>) returns (fields: set<string>)
    ensures forall name :: name in fields <==> ListedIn(attrs, name, |attrs|)
  {
    fields := {};
    for i := 0 to |attrs|
      invariant forall name :: name in fields <==> ListedIn(attrs, name, i)
    {
      var attr := attrs[i];
      if GetIdent(attr.path) == Some("index_fields") {
        if attr.parsed.Some? && attr.parsed.value.MetaList? {
          var nested := attr.parsed.value.nested;
          for j := 0 to |nested|
            invariant forall name :: name in fields <==> ListedIn(attrs, name, i) || ListedBefore(attr, name, j)
          {
            var item := ItemIdent(nested[j]);
            if item.Some? {
              fields := fields + {item.value};
            }
          }
        }
      }
    }
  }

  /** The list filled by the index-struct generator: the same identifiers, in
      the order they are written, repeats kept. */
  method CollectIndexNames(attrs: seq<Attribute>) returns (names: seq<string>)
    ensures forall name :: name in names <==> ListedIn(attrs, name, |attrs|)
  {
    names := [];
    for i := 0 to |attrs|
      invariant forall name :: name in names <==> ListedIn(attrs, name, i)
    {
      var attr := attrs[i];
      if GetIdent(attr.path) == Some("index_fields") {
        if attr.parsed.Some? && attr.parsed.value.MetaList? {
          var nested := attr.parsed.value.nested;
          for j := 0 to |nested|
            invariant forall name :: name in names <==> ListedIn(attrs, name, i) || ListedBefore(attr, name, j)
          {
            var item := ItemIdent(nested[j]);
            if item.Some? {
              names := names + [item.value];
            }
          }
        }
      }
    }
  }

  /** The positions of the struct's fields whose names are listed: these, and
      only these, get an index map and a patch method that maintains it. */
  function IndexedPositions(fields: seq<Field>, names: set<string>): set<nat>
  {
    set k | 0 <= k < |fields| && fields[k].name in names
  }
}
