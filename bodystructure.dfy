/**
 * The BODYSTRUCTURE tree a server reports for a message (section 7.4.2 of
 * RFC 3501) and the attachment inventory the list views show for it
 * (getAttachmentNames in services/fetchTableList.go and, identically, in
 * services/email_services.go).
 */
module BodyStructure {
  import Ascii

  /**
   * A node of the tree: its Content-Disposition value, its content-type
   * parameter map (go-imap's BodyStructure.Params; the disposition's own
   * parameters are kept apart and are not read here) and its sub-parts. Nil
   * is Go's nil pointer.
   */
  datatype Node = Nil | Node(disposition: string, params: map<string, string>, parts: seq<Node>)

  /** The name getAttachmentNames resolves for a node: filename, else name, else "". */
  function ResolvedName(params: map<string, string>): (r: string)
    ensures "filename" in params && params["filename"] != "" ==> r == params["filename"]
    ensures !("filename" in params && params["filename"] != "") ==> r == (if "name" in params then params["name"] else "")
  {
    var f := if "filename" in params then params["filename"] else "";
    if f != "" then f else if "name" in params then params["name"] else ""
  }

  /** The node itself is listed: an "attachment" disposition (any case) with a resolved name. */
  predicate Listed(n: Node) {
    n.Node? && n.disposition != "" && Ascii.ToLower(n.disposition) == "attachment" && ResolvedName(n.params) != ""
  }

  /** getAttachmentNames: a pre-order walk, the node before its children, children left to right. */
  function AttachmentNames(n: Node): (r: seq<string>)
    decreases n, 1
  {
    if n.Nil? then []
    else (if Listed(n) then [ResolvedName(n.params)] else []) + ChildNames(n.parts)
  }

  function ChildNames(ps: seq<Node>): (r: seq<string>)
    decreases ps, 0
  {
    if ps == [] then [] else AttachmentNames(ps[0]) + ChildNames(ps[1..])
  }

  /** The same walk as a flat list: every node of the tree in pre-order. */
  function PreOrder(n: Node): (r: seq<Node>)
    ensures n.Nil? <==> r == []
    ensures n.Node? ==> r[0] == n
    decreases n, 1
  {
    if n.Nil? then [] else [n] + PreOrderAll(n.parts)
  }

  function PreOrderAll(ps: seq<Node>): (r: seq<Node>)
    decreases ps, 0
  {
    if ps == [] then [] else PreOrder(ps[0]) + PreOrderAll(ps[1..])
  }

  /** Keep the listed nodes of a sequence and take their names. */
  function NamesOf(ns: seq<Node>): (r: seq<string>)
    ensures |r| <= |ns|
  {
    if ns == [] then [] else (if Listed(ns[0]) then [ResolvedName(ns[0].params)] else []) + NamesOf(ns[1..])
  }

  lemma {:induction false} NamesOfAppend(a: seq<Node>, b: seq<Node>)
    ensures NamesOf(a + b) == NamesOf(a) + NamesOf(b)
  {
    if a != [] {
      NamesOfAppend(a[1..], b);
      assert (a + b)[1..] == a[1..] + b;
    } else {
      assert a + b == b;
    }
  }

  /**
   * The inventory is exactly the resolved names of the listed nodes of the
   * tree, taken in pre-order: containers are listed like leaves, inline nodes
   * never are.
   */
  lemma {:induction false} AttachmentNamesIsPreOrder(n: Node)
    ensures AttachmentNames(n) == NamesOf(PreOrder(n))
    decreases n, 1
  {
    if n.Node? {
      ChildNamesIsPreOrder(n.parts);
      NamesOfAppend([n], PreOrderAll(n.parts));
    }
  }

  lemma {:induction false} ChildNamesIsPreOrder(ps: seq<Node>)
    ensures ChildNames(ps) == NamesOf(PreOrderAll(ps))
    decreases ps, 0
  {
    if ps != [] {
      AttachmentNamesIsPreOrder(ps[0]);
      ChildNamesIsPreOrder(ps[1..]);
      NamesOfAppend(PreOrder(ps[0]), PreOrderAll(ps[1..]));
    }
  }

  /** `name` is the resolved name of some listed node of `ns`. */
  predicate NameOfListed(ns: seq<Node>, name: string) {
    exists j :: 0 <= j < |ns| && Listed(ns[j]) && ResolvedName(ns[j].params) == name
  }

  /** Every name in the inventory is non-empty and comes from a listed node. */
  lemma {:induction false} NamesOfSound(ns: seq<Node>)
    ensures forall name :: name in NamesOf(ns) ==> name != "" && NameOfListed(ns, name)
  {
    if ns != [] {
      NamesOfSound(ns[1..]);
      var head := if Listed(ns[0]) then [ResolvedName(ns[0].params)] else [];
      assert NamesOf(ns) == head + NamesOf(ns[1..]);
      forall name | name in NamesOf(ns)
        ensures name != "" && NameOfListed(ns, name)
      {
        if name in head {
          assert Listed(ns[0]) && ResolvedName(ns[0].params) == name;
        } else {
          assert name in NamesOf(ns[1..]);
          var j :| 0 <= j < |ns[1..]| && Listed(ns[1..][j]) && ResolvedName(ns[1..][j].params) == name;
          assert ns[j + 1] == ns[1..][j];
        }
      }
    }
  }

  /** A tree without any attachment disposition yields an empty inventory. */
  lemma {:induction false} NoAttachmentNoNames(ns: seq<Node>)
    requires forall j :: 0 <= j < |ns| ==> !Listed(ns[j])
    ensures NamesOf(ns) == []
  {
    if ns != [] {
      NoAttachmentNoNames(ns[1..]);
    }
  }

  /** An inline node is never listed, whatever its parameters. */
  lemma InlineNotListed(params: map<string, string>, parts: seq<Node>)
    ensures !Listed(Node("inline", params, parts))
  {
    assert Ascii.ToLower("inline")[0] == 'i';
  }

  /**
   * Every name getAttachmentNames returns is non-empty and is the resolved
   * name of a node of the tree whose disposition is "attachment".
   */
  lemma AttachmentNamesSound(n: Node)
    ensures forall name :: name in AttachmentNames(n) ==> name != "" && NameOfListed(PreOrder(n), name)
  {
    AttachmentNamesIsPreOrder(n);
    NamesOfSound(PreOrder(n));
  }

  /** A tree none of whose nodes is an attachment has an empty inventory. */
  lemma NoListedNodeNoNames(n: Node)
    requires forall j :: 0 <= j < |PreOrder(n)| ==> !Listed(PreOrder(n)[j])
    ensures AttachmentNames(n) == []
  {
    AttachmentNamesIsPreOrder(n);
    NoAttachmentNoNames(PreOrder(n));
  }
}
