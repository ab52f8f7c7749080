/**
 * `HytaleWikiVisitor`: walks a parsed page and builds the render tree, drawing element ids
 * from its counter. Each visit is proved to return what `Lowering.Lower` describes and to
 * leave the counter where `Lower` says.
 */
module Visitor {
  import opened Wrappers
  import opened Strings
  import opened Lowering

  class HytaleWikiVisitor {
    /** The next id number to hand out. */
    var id: nat

    constructor()
      ensures id == 0
    {
      id := 0;
    }

    /** Hand out the current number and advance the counter. */
    method NextId() returns (n: nat)
      modifies this
      ensures n == old(id) && id == old(id) + 1
    {
      n := id;
      id := id + 1;
    }

    method Reset()
      modifies this
      ensures id == 0
    {
      id := 0;
    }

    /** A label with runs of spaces collapsed, under the next `text-` id. */
    method BuildLabel(content: string) returns (lbl: Render)
      modifies this
      ensures lbl == TextLabel(content, old(id)) && id == old(id) + 1
    {
      var n := NextId();
      lbl := Label(Id(TextId, n), CollapseSpaces(content));
    }

    method VisitText(content: string) returns (r: Option<Render>)
      modifies this
      ensures (r, id) == Lower(Text(content), old(id))
    {
      if content == [] {
        return None;
      }
      var lbl := BuildLabel(content);
      r := Some(lbl);
    }

    method VisitBold(children: seq<Node>) returns (r: Option<Render>)
      modifies this
      ensures (r, id) == Lower(Bold(children), old(id))
    {
      var content := BoldText(children);
      if Trim(content) == [] {
        return None;
      }
      var lbl := BuildLabel(content);
      r := Some(lbl);
    }

    method VisitLineBreak() returns (r: Option<Render>)
      modifies this
      ensures (r, id) == Lower(LineBreak, old(id))
    {
      var n := NextId();
      r := Some(Label(Id(LineBreakId, n), "\n"));
    }

    /** A section: the title label (two ids: the label's own, then the `title-` one), the section id, then the children. */
    method VisitSection(title: Option<string>, children: seq<Node>) returns (r: Option<Render>)
      modifies this
      ensures (r, id) == Lower(Section(title, children), old(id))
      decreases children, |children| + 2
    {
      var initial: seq<Render> := [];
      if title.Some? {
        var lbl := BuildLabel(title.value);
        var n := NextId();
        initial := [lbl.(id := Id(TitleId, n))];
      }
      var sectionId := NextId();
      r := ComposeChildren(Id(SectionId, sectionId), initial, children);
    }

    /** Any node the visitor does not handle itself: a `parent-` group of its children. */
    method VisitChildren(children: seq<Node>) returns (r: Option<Render>)
      modifies this
      ensures (r, id) == Lower(Generic(children), old(id))
      decreases children, |children| + 2
    {
      var parentId := NextId();
      r := ComposeChildren(Id(ParentId, parentId), [], children);
    }

    /** `accept`: dispatch on the kind of node. */
    method Visit(node: Node) returns (r: Option<Render>)
      modifies this
      ensures (r, id) == Lower(node, old(id))
      decreases node, 0
    {
      match node
      case Text(content) => r := VisitText(content);
      case Bold(children) => r := VisitBold(children);
      case LineBreak => r := VisitLineBreak();
      case Section(title, children) => r := VisitSection(title, children);
      case XMLContainer(_) => r := None;
      case XMLStandalone => r := None;
      case Generic(children) => r := VisitChildren(children);
    }

    /**
     * Visit the children in order: consecutive labels are held back and merged into one new
     * label when a group arrives and at the end; the group is kept only if some child gave
     * a group or a label that is not a line break. A single child is returned as it is.
     */
    method ComposeChildren(groupId: Id, initial: seq<Render>, children: seq<Node>) returns (r: Option<Render>)
      modifies this
      ensures (r, id) == Compose(groupId, initial, children, old(id))
      decreases children, |children| + 1
    {
      if |children| == 1 {
        r := Visit(children[0]);
        return;
      }
      var start := id;
      var appended: seq<Render> := [];
      var pending: seq<string> := [];
      var anyText := false;
      ghost var seen: seq<Render> := [];
      var i := 0;
      while i < |children|
        invariant 0 <= i <= |children|
        invariant Fold(appended, pending, anyText, id, seen) == ComposeState(children, i, start)
      {
        var accepted := Visit(children[i]);
        if accepted.Some? {
          var element := accepted.value;
          if element.Label? {
            if !StartsWith(IdString(element.id), "line-break") {
              anyText := true;
            }
            pending := pending + [element.text];
          } else {
            if pending != [] {
              var lbl := BuildLabel(Concat(pending));
              appended := appended + [lbl];
            }
            pending := [];
            appended := appended + [element];
            anyText := true;
          }
          seen := seen + [element];
        }
        i := i + 1;
      }
      if pending != [] {
        var lbl := BuildLabel(Concat(pending));
        appended := appended + [lbl];
      }
      if !anyText {
        return None;
      }
      r := Some(Group(groupId, initial + appended));
    }
  }
}
