/**
 * The block document model the content store holds: a body is a sequence of nodes; a text
 * block carries a style, an optional list role, a registry of mark definitions and a sequence
 * of inline children, most of them spans.
 */
module Blocks {
  import opened Wrappers

  /**
   * An inline child of a block. `Span` is `{_type: "span", _key, text, marks}`: `marks` lists
   * decorator names (`strong`, `em`, `code`) and keys of the block's mark definitions. A span
   * written without a `_key` has `key == ""`.
   */
  datatype Child =
    | Span(key: string, text: string, marks: seq<string>)
    | InlineObject(kind: string, key: string)

  /** One entry of a block's `markDefs`, such as `{_key, _type: "link", href}`. */
  datatype MarkDef = MarkDef(key: string, kind: string, href: string)

  datatype ListKind = Bullet | Number

  /** `listItem` and `level` of a block that came from a list item. */
  datatype ListItem = ListItem(kind: ListKind, level: nat)

  datatype Block = Block(
    key: string,
    style: string,
    listItem: Option<ListItem>,
    markDefs: seq<MarkDef>,
    children: seq<Child>)

  /** An entry of a document body: a text block (`_type: "block"`) or any other object. */
  datatype Node = TextBlock(block: Block) | OtherNode(kind: string, key: string)

  /** `child.text || ""`. */
  function TextOf(c: Child): string {
    if c.Span? then c.text else []
  }

  /** The texts of the children, in order. */
  function Texts(cs: seq<Child>): (ts: seq<string>)
    ensures |ts| == |cs| && forall i :: 0 <= i < |cs| ==> ts[i] == TextOf(cs[i])
  {
    seq(|cs|, i requires 0 <= i < |cs| => TextOf(cs[i]))
  }

  /** Reading the texts off two runs of children one after the other reads them off the whole. */
  lemma TextsAppend(a: seq<Child>, b: seq<Child>)
    ensures Texts(a + b) == Texts(a) + Texts(b)
  {
    var l, r := Texts(a + b), Texts(a) + Texts(b);
    forall i | 0 <= i < |l| ensures l[i] == r[i] {
      if i < |a| {
        assert (a + b)[i] == a[i];
      } else {
        assert (a + b)[i] == b[i - |a|];
      }
    }
  }

  predicate NoDuplicates<T(==)>(s: seq<T>) {
    forall i, j :: 0 <= i < j < |s| ==> s[i] != s[j]
  }

  lemma NoDuplicatesCons<T>(x: T, s: seq<T>)
    requires NoDuplicates(s) && x !in s
    ensures NoDuplicates([x] + s)
  {
    var r := [x] + s;
    forall a, b | 0 <= a < b < |r| ensures r[a] != r[b] {
      if a == 0 {
        assert r[b] == s[b - 1];
      } else {
        assert r[a] == s[a - 1] && r[b] == s[b - 1];
      }
    }
  }

  lemma NoDuplicatesSnoc<T>(s: seq<T>, x: T)
    requires NoDuplicates(s) && x !in s
    ensures NoDuplicates(s + [x])
  {
    var r := s + [x];
    forall a, b | 0 <= a < b < |r| ensures r[a] != r[b] {
      if b == |s| {
        assert r[a] == s[a];
      } else {
        assert r[a] == s[a] && r[b] == s[b];
      }
    }
  }
}
