/** Element declarations as the parser reads them: the prolog role machine
    (expat/xmlrole.c:968-1196, 1261-1297), the connector table, the scaffold and its index
    stack (expat/xmlparse.c:4202-4256, 4339-4448, 6047-6093), and the model that is built
    at the last closing parenthesis (expat/xmlparse.c:6095-6152). */
module ElementDecl {
  import opened ContentModel
  import opened ContentScaffold

  const INIT_SCAFFOLD_ELEMENTS := 32
  const INIT_GROUP_SIZE := 32

  datatype Role =
    | RoleNone | RoleName | RoleEmpty | RoleAny | RoleGroupOpen | RolePcdata
    | RoleElement(quant: Quant) | RoleGroupClose(quant: Quant) | RoleSequence | RoleChoice | RoleError

  /** The content handed to the element declaration handler. */
  datatype Model = NoModel | EmptyModel | AnyModel | TreeModel(nodes: seq<Rec>, strings: seq<char>)

  /** Whether a handler stands inside the outermost parenthesis. */
  predicate InGroup(h: Handler) {
    h.E2? || h.E3? || h.E4? || h.E5? || h.E6? || h.E7?
  }

  class Parser {
    var handler: Handler
    var level: nat
    var declName: string
    var groupConnector: array<Connector>
    var scaffIndex: array<nat>
    var scaffold: array<Part>
    var scaffCount: nat
    var scaffLevel: nat
    var contentStringLen: nat
    var model: Model

    ghost function Arrays(): set<object>
      reads this`groupConnector, this`scaffIndex, this`scaffold
    {
      {groupConnector as object, scaffIndex as object, scaffold as object}
    }

    ghost function Parts(): seq<Part>
      requires scaffCount <= scaffold.Length
      reads this`scaffold, this`scaffCount, scaffold
    {
      scaffold[..scaffCount]
    }

    ghost predicate Sized()
      reads this`scaffIndex, this`scaffold, this`scaffCount, this`scaffLevel, this`groupConnector
    {
      && scaffCount <= scaffold.Length
      && scaffLevel <= scaffIndex.Length
      && (scaffIndex.Length == 0 || scaffIndex.Length == groupConnector.Length)
    }

    /** The scaffold holds the open groups `frames`, and `scaffIndex` where they start. */
    ghost predicate Scaffolded(frames: seq<Frame>)
      reads this`scaffIndex, this`scaffold, this`scaffCount, this`scaffLevel, this`groupConnector
      reads this`contentStringLen, scaffIndex, scaffold
    {
      && Sized()
      && scaffLevel == |frames|
      && Stack(Parts(), scaffIndex[..scaffLevel], frames, scaffCount, false)
      && Types(Parts(), scaffIndex[..scaffLevel], frames)
      && contentStringLen == NamesLen(frames)
    }

    /** `groupConnector` holds the connectors of the groups, from level 1 on. */
    ghost predicate Connected(frames: seq<Frame>)
      reads this`groupConnector, groupConnector
    {
      && (frames != [] ==> |frames| < groupConnector.Length)
      && (forall i | 0 <= i < |frames| :: groupConnector[i + 1] == frames[i].conn)
    }

    /** The tables encode the open groups `frames`. */
    ghost predicate Groups(frames: seq<Frame>)
      reads this`scaffIndex, this`scaffold, this`scaffCount, this`scaffLevel, this`groupConnector
      reads this`contentStringLen, Arrays()
    {
      Scaffolded(frames) && Connected(frames)
    }

    /** What the tables hold in the recogniser's state `s`. */
    ghost predicate Tables(s: State)
      reads this`scaffIndex, this`scaffold, this`scaffCount, this`scaffLevel, this`groupConnector
      reads this`contentStringLen, this`declName, this`model, Arrays()
    {
      && declName == s.name && Sized()
      && (s.handler.E0? || s.handler.E1? ==> contentStringLen == 0)
      && (s.handler.E1? ==> scaffLevel == 0 && scaffCount == 0)
      && (InGroup(s.handler) ==> Groups(s.frames))
      && (s.handler.EndDecl? || s.handler.Accepted? ==> contentStringLen == 0 && Built(model, s.content))
    }

    /** The role machine is in the recogniser's state `s`. */
    ghost predicate At(s: State)
      reads this`handler, this`level
    {
      handler == s.handler && (InGroup(s.handler) ==> level == |s.frames|)
    }

    /** The parser is in the recogniser's state `s`; after an error only the handler matters. */
    ghost predicate Holds(s: State)
      reads this, Arrays()
    {
      Wf(s) && At(s) && (s.handler.Error? || Tables(s))
    }

    constructor ()
      ensures Holds(START) && fresh(Arrays())
    {
      handler, level, declName := E0, 0, "";
      groupConnector, scaffIndex, scaffold := new Connector[0], new nat[0], new Part[0];
      scaffCount, scaffLevel, contentStringLen := 0, 0, 0;
      model := NoModel;
    }

    /** The role of the next token (`XmlTokenRole`); the connector is not checked here. */
    method TokenRole(t: Token, ghost s: State) returns (role: Role)
      requires Wf(s) && At(s) && !handler.Error?
      modifies this`handler, this`level
      ensures RoleMeans(role, t, s, Step(s, t)) && (role.RoleError? <==> handler.Error?)
      ensures !Step(s, t).handler.Error? ==> At(Step(s, t))
      ensures role.RoleSequence? || role.RoleChoice? ==> level == |s.frames|
    {
      role := RoleNone;
      if t.Space? {
        return;
      }
      match handler {
        case E0 =>
          if t.Name? && t.quant.One? {
            handler, role := E1, RoleName;
            return;
          }
        case E1 =>
          if t == Name("EMPTY", One) {
            handler, role := EndDecl, RoleEmpty;
            return;
          } else if t == Name("ANY", One) {
            handler, role := EndDecl, RoleAny;
            return;
          } else if t.Open? {
            handler, level, role := E2, 1, RoleGroupOpen;
            return;
          }
        case E2 =>
          if t == Pound("PCDATA") {
            handler, role := E3, RolePcdata;
            return;
          } else if t.Open? {
            level, handler, role := 2, E6, RoleGroupOpen;
            return;
          } else if t.Name? {
            handler, role := E7, RoleElement(t.quant);
            return;
          }
        case E3 =>
          if t.Close? && (t.quant.One? || t.quant.Rep?) {
            handler, role := EndDecl, RoleGroupClose(t.quant);
            return;
          } else if t.Or? {
            handler := E4;
            return;
          }
        case E4 =>
          if t.Name? && t.quant.One? {
            handler, role := E5, RoleElement(One);
            return;
          }
        case E5 =>
          if t == Close(Rep) {
            handler, role := EndDecl, RoleGroupClose(Rep);
            return;
          } else if t.Or? {
            handler := E4;
            return;
          }
        case E6 =>
          if t.Open? {
            level, role := level + 1, RoleGroupOpen;
            return;
          } else if t.Name? {
            handler, role := E7, RoleElement(t.quant);
            return;
          }
        case E7 =>
          if t.Close? {
            level := level - 1;
            if level == 0 {
              handler := EndDecl;
            }
            role := RoleGroupClose(t.quant);
            return;
          } else if t.Comma? {
            handler, role := E6, RoleSequence;
            return;
          } else if t.Or? {
            handler, role := E6, RoleChoice;
            return;
          }
        case EndDecl =>
          if t.DeclClose? {
            handler := Accepted;
            return;
          }
        case Accepted | Error =>
      }
      handler, role := Error, RoleError;
    }

    /** Room for one more part, and the index stack if there is none yet. */
    method ReservePart()
      requires Sized() && groupConnector.Length > 0
      modifies this`scaffIndex, this`scaffold
      ensures Sized() && scaffIndex.Length == groupConnector.Length && scaffCount < scaffold.Length
      ensures (scaffIndex == old(scaffIndex) || fresh(scaffIndex)) && (scaffold == old(scaffold) || fresh(scaffold))
      ensures scaffIndex[..scaffLevel] == old(scaffIndex[..scaffLevel]) && Parts() == old(Parts())
    {
      if scaffIndex.Length == 0 {
        scaffIndex := new nat[groupConnector.Length];
        scaffIndex[0] := 0;
      }
      if scaffCount >= scaffold.Length {
        var size := if scaffold.Length > 0 then scaffold.Length * 2 else INIT_SCAFFOLD_ELEMENTS;
        var temp := new Part[size];
        forall k | 0 <= k < scaffCount {
          temp[k] := scaffold[k];
        }
        scaffold := temp;
      }
    }

    /** The new part `next` becomes the last child of the part at `p`. */
    method LinkPart(p: nat, next: nat)
      requires p < next < scaffold.Length && scaffold[p].lastchild < next
      modifies scaffold
      ensures scaffold[..next] == Linked(old(scaffold[..next]), p)
    {
      ghost var parts := scaffold[..next];
      var last := scaffold[p].lastchild;
      if last != 0 {
        scaffold[last] := scaffold[last].(nextsib := next);
      }
      assert scaffold[..next] == if last != 0 then parts[last := parts[last].(nextsib := next)] else parts;
      if scaffold[p].childcnt == 0 {
        scaffold[p] := scaffold[p].(firstchild := next);
      }
      scaffold[p] := scaffold[p].(lastchild := next);
      scaffold[p] := scaffold[p].(childcnt := scaffold[p].childcnt + 1);
    }

    /** `nextScaffoldPart`: one more part, linked behind its parent's other children. */
    method NextScaffoldPart() returns (next: nat)
      requires Sized() && groupConnector.Length > 0
      requires scaffLevel > 0 ==> scaffIndex[scaffLevel - 1] < scaffCount &&
                                  scaffold[scaffIndex[scaffLevel - 1]].lastchild < scaffCount
      modifies this`scaffIndex, this`scaffold, this`scaffCount, scaffold
      ensures Sized() && scaffIndex.Length == groupConnector.Length
      ensures (scaffIndex == old(scaffIndex) || fresh(scaffIndex)) && (scaffold == old(scaffold) || fresh(scaffold))
      ensures next == old(scaffCount) && scaffCount == next + 1 && Blank(scaffold[next])
      ensures scaffIndex[..scaffLevel] == old(scaffIndex[..scaffLevel])
      ensures scaffold[..next] == old(if scaffLevel == 0 then Parts() else Linked(Parts(), scaffIndex[scaffLevel - 1]))
    {
      ghost var parts := Parts();
      ReservePart();
      next := scaffCount;
      scaffCount := scaffCount + 1;
      if scaffLevel > 0 {
        var p := scaffIndex[..scaffLevel][scaffLevel - 1];
        assert scaffold[..next][p] == parts[p];
        LinkPart(p, next);
      }
      ghost var linked := scaffold[..next];
      scaffold[next] := scaffold[next].(firstchild := 0, lastchild := 0, childcnt := 0, nextsib := 0);
      assert scaffold[..next] == linked;
    }

    /** Room for the connector of one more group (expat/xmlparse.c:4203-4222). */
    method GrowGroups()
      requires Sized() && (level <= groupConnector.Length || (groupConnector.Length == 0 && level < INIT_GROUP_SIZE))
      modifies this`groupConnector, this`scaffIndex
      ensures Sized() && level < groupConnector.Length
      ensures (groupConnector == old(groupConnector) || fresh(groupConnector)) && (scaffIndex == old(scaffIndex) || fresh(scaffIndex))
      ensures old(groupConnector.Length) <= groupConnector.Length
      ensures forall i | 0 <= i < old(groupConnector.Length) :: groupConnector[i] == old(groupConnector[i])
      ensures scaffIndex[..scaffLevel] == old(scaffIndex[..scaffLevel])
      ensures scaffIndex.Length != 0 <==> old(scaffIndex.Length) != 0
    {
      if level >= groupConnector.Length {
        if groupConnector.Length > 0 {
          var size := groupConnector.Length * 2;
          var temp := new Connector[size];
          forall k | 0 <= k < groupConnector.Length {
            temp[k] := groupConnector[k];
          }
          if scaffIndex.Length > 0 {
            var index := new nat[size];
            forall k | 0 <= k < scaffIndex.Length {
              index[k] := scaffIndex[k];
            }
            scaffIndex := index;
          }
          groupConnector := temp;
        } else {
          groupConnector := new Connector[INIT_GROUP_SIZE];
        }
      }
    }

    /** A part for the next child of the innermost group, as an empty group so far. */
    method PushPart(ghost frames: seq<Frame>) returns (next: nat)
      requires Scaffolded(frames) && groupConnector.Length > |frames|
      modifies this`scaffIndex, this`scaffold, this`scaffCount, scaffold
      ensures Sized() && scaffIndex.Length == groupConnector.Length
      ensures (scaffIndex == old(scaffIndex) || fresh(scaffIndex)) && (scaffold == old(scaffold) || fresh(scaffold))
      ensures next < scaffCount && scaffCount == next + 1 && scaffIndex[..scaffLevel] == old(scaffIndex[..scaffLevel])
      ensures Stack(Parts(), scaffIndex[..scaffLevel] + [next], frames + [Frame(false, NoConnector, [])], scaffCount, false)
      ensures Types(Parts(), scaffIndex[..scaffLevel], frames)
    {
      ghost var parts, idx := Parts(), scaffIndex[..scaffLevel];
      ghost var blank := Part(NamePart, One, "", 0, 0, 0, 0);
      ContentScaffold.PushPart(parts, idx, frames, blank, Frame(false, NoConnector, []));
      assert frames != [] ==> scaffIndex[scaffLevel - 1] == idx[|idx| - 1] && parts[idx[|idx| - 1]] == scaffold[idx[|idx| - 1]];
      next := NextScaffoldPart();
      ContentScaffold.PushPart(parts, idx, frames, scaffold[next], Frame(false, NoConnector, []));
      assert Parts() == scaffold[..next] + [scaffold[next]];
      LinkedTypes(parts, idx, frames, scaffold[next]);
    }

    /** A part for a group that opens: its index is pushed and its type is a sequence. */
    method PushGroup(ghost frames: seq<Frame>)
      requires Scaffolded(frames) && groupConnector.Length > |frames|
      modifies this`scaffIndex, this`scaffold, this`scaffCount, this`scaffLevel, scaffold, scaffIndex
      ensures (scaffIndex == old(scaffIndex) || fresh(scaffIndex)) && (scaffold == old(scaffold) || fresh(scaffold))
      ensures Scaffolded(frames + [Frame(false, NoConnector, [])])
    {
      ghost var f := Frame(false, NoConnector, []);
      ghost var all := frames + [f];
      var myindex := PushPart(frames);
      ghost var idx := scaffIndex[..scaffLevel];
      scaffIndex[scaffLevel] := myindex;
      scaffLevel := scaffLevel + 1;
      assert scaffIndex[..scaffLevel] == idx + [myindex] && scaffIndex[..scaffLevel - 1] == idx;
      assert all[..|frames|] == frames;
      SetType(all, GroupPart(Sequence));
      assert Kind(f) == Sequence;
      NamesLenSnoc(frames, f);
    }

    /** The connector of one more group, none so far. */
    method OpenLevel(ghost frames: seq<Frame>)
      requires Scaffolded(frames) && Connected(frames) && level == |frames| + 1
      modifies this`groupConnector, this`scaffIndex, groupConnector
      ensures (groupConnector == old(groupConnector) || fresh(groupConnector)) && (scaffIndex == old(scaffIndex) || fresh(scaffIndex))
      ensures Scaffolded(frames) && Connected(frames + [Frame(false, NoConnector, [])])
    {
      GrowGroups();
      groupConnector[level] := NoConnector;
    }

    /** XML_ROLE_GROUP_OPEN. */
    method OnGroupOpen(ghost frames: seq<Frame>)
      requires Groups(frames) && level == |frames| + 1
      modifies this`groupConnector, this`scaffIndex, this`scaffold, this`scaffCount, this`scaffLevel, groupConnector, scaffIndex, scaffold
      ensures (groupConnector == old(groupConnector) || fresh(groupConnector)) &&
              (scaffIndex == old(scaffIndex) || fresh(scaffIndex)) && (scaffold == old(scaffold) || fresh(scaffold))
      ensures Groups(frames + [Frame(false, NoConnector, [])])
    {
      OpenLevel(frames);
      PushGroup(frames);
    }

    /** A named part for the next child of the innermost group. */
    method PushElement(ghost frames: seq<Frame>, name: string, quant: Quant)
      requires Scaffolded(frames) && frames != [] && groupConnector.Length > |frames|
      modifies this`scaffIndex, this`scaffold, this`scaffCount, scaffold
      ensures Sized() && (scaffIndex == old(scaffIndex) || fresh(scaffIndex)) && (scaffold == old(scaffold) || fresh(scaffold))
      ensures Stack(Parts(), scaffIndex[..scaffLevel], WithChild(frames, Leaf(name, quant)), scaffCount, false)
      ensures Types(Parts(), scaffIndex[..scaffLevel], WithChild(frames, Leaf(name, quant)))
    {
      ghost var f := Frame(false, NoConnector, []);
      var myindex := PushPart(frames);
      ghost var parts, idx := Parts(), scaffIndex[..scaffLevel];
      ghost var part := parts[myindex].(kind := NamePart, quant := quant, name := name);
      scaffold[myindex] := scaffold[myindex].(kind := NamePart);
      scaffold[myindex] := scaffold[myindex].(quant := quant);
      scaffold[myindex] := scaffold[myindex].(name := name);
      assert Parts() == parts[myindex := part] && scaffIndex[..scaffLevel] == idx;
      Retype(parts, Parts(), idx + [myindex], frames + [f], part);
      Complete(Parts(), idx, myindex, frames, f, Leaf(name, quant));
    }

    /** XML_ROLE_CONTENT_ELEMENT and its quantified forms (expat/xmlparse.c:4394-4413). */
    method OnElement(ghost frames: seq<Frame>, name: string, quant: Quant)
      requires Groups(frames) && frames != []
      modifies this`scaffIndex, this`scaffold, this`scaffCount, this`contentStringLen, scaffold
      ensures (scaffIndex == old(scaffIndex) || fresh(scaffIndex)) && (scaffold == old(scaffold) || fresh(scaffold))
      ensures Groups(WithChild(frames, Leaf(name, quant)))
    {
      PushElement(frames, name, quant);
      contentStringLen := contentStringLen + |name| + 1;
      NamesLenChild(frames, Leaf(name, quant));
    }

    /** `scaffold[scaffIndex[scaffLevel - 1]].type` */
    method SetType(ghost frames: seq<Frame>, kind: PartType)
      requires Sized() && frames != [] && scaffLevel == |frames|
      requires Stack(Parts(), scaffIndex[..scaffLevel], frames, scaffCount, false)
      requires Types(Parts(), scaffIndex[..scaffLevel - 1], frames[..|frames| - 1])
      modifies scaffold
      ensures Stack(Parts(), scaffIndex[..scaffLevel], frames, scaffCount, false)
      ensures scaffIndex[scaffLevel - 1] < scaffCount
      ensures forall f: Frame :: kind == GroupPart(Kind(f)) ==>
                Types(Parts(), scaffIndex[..scaffLevel], frames[..|frames| - 1] + [f])
    {
      ghost var parts, idx := Parts(), scaffIndex[..scaffLevel];
      var p := scaffIndex[scaffLevel - 1];
      assert idx[|frames| - 1] == p;
      StackBelow(parts, idx, frames, scaffCount, false);
      Retype(parts, parts[p := parts[p].(kind := kind)], idx, frames, parts[p].(kind := kind));
      scaffold[p] := scaffold[p].(kind := kind);
      assert Parts() == parts[p := parts[p].(kind := kind)];
      assert scaffIndex[..scaffLevel - 1] == idx[..|frames| - 1];
      assert forall i | 0 <= i < |frames| - 1 :: idx[..|frames| - 1][i] == idx[i];
    }

    /** XML_ROLE_CONTENT_PCDATA. */
    method OnPcdata(ghost frames: seq<Frame>)
      requires Groups(frames) && frames != []
      modifies scaffold
      ensures Groups(WithFrame(frames, frames[|frames| - 1].(mixed := true)))
    {
      ghost var f := frames[|frames| - 1].(mixed := true);
      TypesBelow(Parts(), scaffIndex[..scaffLevel], frames);
      assert scaffIndex[..scaffLevel - 1] == scaffIndex[..scaffLevel][..|frames| - 1];
      SetType(frames, GroupPart(Mixed));
      assert Kind(f) == Mixed;
      StackFrame(Parts(), scaffIndex[..scaffLevel], frames, f);
    }

    /** The connector of the innermost group, once its part agrees. */
    method SetConnector(ghost frames: seq<Frame>, c: Connector)
      requires Connected(frames) && frames != [] && level == |frames|
      requires Scaffolded(WithFrame(frames, frames[|frames| - 1].(conn := c)))
      modifies groupConnector
      ensures Groups(WithFrame(frames, frames[|frames| - 1].(conn := c)))
    {
      groupConnector[level] := c;
    }

    /** XML_ROLE_GROUP_SEQUENCE: false for a syntax error. */
    method OnSequence(ghost frames: seq<Frame>) returns (ok: bool)
      requires Groups(frames) && frames != [] && level == |frames| && !frames[|frames| - 1].mixed
      modifies groupConnector
      ensures ok == !frames[|frames| - 1].conn.OrConnector?
      ensures ok ==> Groups(WithFrame(frames, frames[|frames| - 1].(conn := CommaConnector)))
    {
      if groupConnector[level] == OrConnector {
        return false;
      }
      StackFrame(Parts(), scaffIndex[..scaffLevel], frames, frames[|frames| - 1].(conn := CommaConnector));
      SetConnector(frames, CommaConnector);
      return true;
    }

    /** The type of a plain group that becomes a choice. */
    method MakeChoice(ghost frames: seq<Frame>)
      requires Scaffolded(frames) && frames != [] && !frames[|frames| - 1].mixed
      modifies scaffold
      ensures Scaffolded(WithFrame(frames, frames[|frames| - 1].(conn := OrConnector)))
    {
      ghost var f := frames[|frames| - 1].(conn := OrConnector);
      TypesBelow(Parts(), scaffIndex[..scaffLevel], frames);
      assert scaffIndex[..scaffLevel - 1] == scaffIndex[..scaffLevel][..|frames| - 1];
      SetType(frames, GroupPart(Choice));
      assert Kind(f) == Choice;
      StackFrame(Parts(), scaffIndex[..scaffLevel], frames, f);
    }

    /** The first `|` of a group makes it a choice, unless it is mixed. */
    method FirstChoice(ghost frames: seq<Frame>, first: bool)
      requires Scaffolded(frames) && frames != [] && !frames[|frames| - 1].mixed
      requires frames[|frames| - 1].conn == if first then NoConnector else OrConnector
      modifies scaffold
      ensures Scaffolded(WithFrame(frames, frames[|frames| - 1].(conn := OrConnector)))
    {
      if first {
        assert scaffIndex[..scaffLevel][|frames| - 1] == scaffIndex[scaffLevel - 1];
        if scaffold[scaffIndex[scaffLevel - 1]].kind != GroupPart(Mixed) {
          MakeChoice(frames);
        }
      } else {
        assert WithFrame(frames, frames[|frames| - 1].(conn := OrConnector)) == frames;
      }
    }

    /** XML_ROLE_GROUP_CHOICE: false for a syntax error. */
    method OnChoice(ghost frames: seq<Frame>) returns (ok: bool)
      requires Groups(frames) && frames != [] && level == |frames| && !frames[|frames| - 1].mixed
      modifies groupConnector, scaffold
      ensures ok == !frames[|frames| - 1].conn.CommaConnector?
      ensures ok ==> Groups(WithFrame(frames, frames[|frames| - 1].(conn := OrConnector)))
    {
      if groupConnector[level] == CommaConnector {
        return false;
      }
      FirstChoice(frames, groupConnector[level] == NoConnector);
      SetConnector(frames, OrConnector);
      return true;
    }

    /** The quantifier of the innermost group, which is complete with it. */
    method SetQuant(ghost frames: seq<Frame>, q: Quant)
      requires Scaffolded(frames) && frames != []
      modifies this`scaffLevel, scaffold
      ensures scaffLevel == |frames| - 1 && Sized() && scaffIndex[scaffLevel] < scaffCount
      ensures Stack(Parts(), scaffIndex[..scaffLevel + 1], frames, scaffCount, false)
      ensures Types(Parts(), scaffIndex[..scaffLevel], frames[..scaffLevel])
      ensures var f := frames[scaffLevel];
              var n := Group(Kind(f), q, f.children);
              HasNode(Parts(), scaffIndex[scaffLevel], n) && scaffIndex[scaffLevel] + Size(n) == scaffCount
    {
      ghost var parts, idx := Parts(), scaffIndex[..scaffLevel];
      TypesBelow(parts, idx, frames);
      StackBelow(parts, idx, frames, scaffCount, false);
      scaffLevel := scaffLevel - 1;
      var p := scaffIndex[scaffLevel];
      assert p == idx[|frames| - 1];
      scaffold[p] := scaffold[p].(quant := q);
      assert Parts() == parts[p := parts[p].(quant := q)];
      Retype(parts, Parts(), idx, frames, parts[p].(quant := q));
      assert scaffIndex[..scaffLevel + 1] == idx && scaffIndex[..scaffLevel] == idx[..|frames| - 1];
      GroupNode(Parts(), idx, frames, q);
    }

    /** A closing parenthesis inside another group (expat/xmlparse.c:4430-4436). */
    method OnInnerClose(ghost frames: seq<Frame>, q: Quant)
      requires Groups(frames) && |frames| > 1
      modifies this`scaffLevel, scaffold
      ensures var f := frames[|frames| - 1];
              Groups(WithChild(frames[..|frames| - 1], Group(Kind(f), q, f.children)))
    {
      ghost var outer, f := frames[..|frames| - 1], frames[|frames| - 1];
      SetQuant(frames, q);
      assert frames == outer + [f];
      assert scaffIndex[..scaffLevel + 1] == scaffIndex[..scaffLevel] + [scaffIndex[scaffLevel]];
      Complete(Parts(), scaffIndex[..scaffLevel], scaffIndex[scaffLevel], outer, f, Group(Kind(f), q, f.children));
      NamesLenSnoc(outer, f);
      NamesLenChild(outer, Group(Kind(f), q, f.children));
    }

    /** The name copied behind the names already in the string space. */
    method CopyName(name: string, strings: array<char>, strpos: nat)
      requires strpos + |name| + 1 <= strings.Length
      modifies strings
      ensures strings[strpos..strpos + |name| + 1] == name + ['\0']
      ensures forall j | 0 <= j < strings.Length && !(strpos <= j < strpos + |name| + 1) :: strings[j] == old(strings[j])
    {
      var k := 0;
      while k < |name|
        invariant 0 <= k <= |name|
        invariant forall j | 0 <= j < k :: strings[strpos + j] == name[j]
        invariant forall j | 0 <= j < strings.Length && !(strpos <= j < strpos + k) :: strings[j] == old(strings[j])
      {
        strings[strpos + k] := name[k];
        k := k + 1;
      }
      strings[strpos + k] := '\0';
    }

    /** `build_node`: the part `src`, which encodes `n`, packed into slot `dest`; the
        cursors end behind its descendants and its names. */
    method BuildNode(src: nat, dest: nat, nodes: array<Rec>, strings: array<char>, contpos: nat, strpos: nat, ghost n: Node)
      returns (contEnd: nat, strEnd: nat)
      requires Sized() && HasNode(Parts(), src, n) && dest < contpos
      requires contpos + Size(n) - 1 <= nodes.Length && dest < nodes.Length && strpos + NameLen(n) <= strings.Length
      modifies nodes, strings
      ensures contEnd == contpos + Size(n) - 1 && strEnd == strpos + NameLen(n)
      ensures Packed(nodes[..], strings[..], dest, contpos, strpos, n)
      ensures forall j | 0 <= j < nodes.Length && j != dest && !(contpos <= j < contEnd) :: nodes[j] == old(nodes[j])
      ensures forall j | 0 <= j < strings.Length && !(strpos <= j < strEnd) :: strings[j] == old(strings[j])
      decreases n, 1
    {
      var part := scaffold[src];
      assert part == Parts()[src];
      if part.kind.NamePart? {
        nodes[dest] := Rec(part.kind, part.quant, strpos, 0, 0);
        CopyName(part.name, strings, strpos);
        contEnd, strEnd := contpos, strpos + |part.name| + 1;
        assert strings[..][strpos..strEnd] == strings[strpos..strEnd];
      } else {
        nodes[dest] := Rec(part.kind, part.quant, 0, part.childcnt, contpos);
        ghost var before := nodes[..];
        contEnd, strEnd := BuildChildren(part.firstchild, part.childcnt, src, nodes, strings, contpos, strpos, n.children);
        assert nodes[..][dest] == before[dest];
      }
    }

    /** One turn of the loop of `build_node`: the children `done` are packed already. */
    method BuildChild(cn: nat, contpos: nat, i: nat, ghost count: nat, nodes: array<Rec>, strings: array<char>,
                      cont: nat, ghost strpos: nat, str: nat, ghost done: seq<Node>, ghost child: Node)
      returns (contEnd: nat, strEnd: nat)
      requires Sized() && HasNode(Parts(), cn, child) && |done| == i < count
      requires cont == contpos + count + SizeAll(done) - i && cont + Size(child) - 1 <= nodes.Length
      requires str == strpos + NameLenAll(done) && str + NameLen(child) <= strings.Length
      requires PackedAll(nodes[..], strings[..], contpos, contpos + count, strpos, done) == true
      modifies nodes, strings
      ensures contEnd == cont + Size(child) - 1 && strEnd == str + NameLen(child)
      ensures PackedAll(nodes[..], strings[..], contpos, contpos + count, strpos, done + [child]) == true
      ensures forall j | 0 <= j < nodes.Length && !(contpos <= j < contEnd) :: nodes[j] == old(nodes[j])
      ensures forall j | 0 <= j < strings.Length && !(strpos <= j < strEnd) :: strings[j] == old(strings[j])
      decreases child, 2
    {
      ghost var ns, ss := nodes[..], strings[..];
      contEnd, strEnd := BuildNode(cn, contpos + i, nodes, strings, cont, str, child);
      PackedAllSame(ns, nodes[..], ss, strings[..], contpos, contpos + count, strpos, done);
      PackedSnoc(nodes[..], strings[..], contpos, contpos + count, strpos, done, child);
    }

    /** The loop of `build_node` over the `count` children from `first` on. */
    method BuildChildren(first: nat, count: nat, ghost src: nat, nodes: array<Rec>, strings: array<char>,
                         contpos: nat, strpos: nat, ghost children: seq<Node>)
      returns (contEnd: nat, strEnd: nat)
      requires Sized() && HasNodes(Parts(), src + 1, children, 0) && count == |children|
      requires first == if children == [] then 0 else src + 1
      requires contpos + SizeAll(children) <= nodes.Length && strpos + NameLenAll(children) <= strings.Length
      modifies nodes, strings
      ensures contEnd == contpos + SizeAll(children) && strEnd == strpos + NameLenAll(children)
      ensures PackedAll(nodes[..], strings[..], contpos, contpos + |children|, strpos, children) == true
      ensures forall j | 0 <= j < nodes.Length && !(contpos <= j < contEnd) :: nodes[j] == old(nodes[j])
      ensures forall j | 0 <= j < strings.Length && !(strpos <= j < strEnd) :: strings[j] == old(strings[j])
      decreases children, 0
    {
      var i, cn := 0, first;
      contEnd, strEnd := contpos + count, strpos;
      assert children[..0] == [] && children[..|children|] == children;
      while i < count
        invariant 0 <= i <= count
        invariant contEnd == contpos + count + SizeAll(children[..i]) - i
        invariant strEnd == strpos + NameLenAll(children[..i])
        invariant i < count ==> cn == src + 1 + SizeAll(children[..i])
        invariant PackedAll(nodes[..], strings[..], contpos, contpos + count, strpos, children[..i]) == true
        invariant forall j | 0 <= j < nodes.Length && !(contpos <= j < contEnd) :: nodes[j] == old(nodes[j])
        invariant forall j | 0 <= j < strings.Length && !(strpos <= j < strEnd) :: strings[j] == old(strings[j])
      {
        ghost var done, child := children[..i], children[i];
        NodesAt(Parts(), src + 1, children, 0, i);
        Snoc(children, i);
        Room(children, i + 1);
        contEnd, strEnd := BuildChild(cn, contpos, i, count, nodes, strings, contEnd, strpos, strEnd, done, child);
        assert scaffold[cn] == Parts()[cn];
        cn := scaffold[cn].nextsib;
        i := i + 1;
      }
    }

    /** `build_model`: the cursors end exactly at `scaffCount` and `contentStringLen`. */
    method BuildModel(ghost root: Node) returns (m: Model)
      requires Sized() && HasNode(Parts(), 0, root)
      requires scaffCount == Size(root) && contentStringLen == NameLen(root)
      ensures Built(m, Tree(root))
    {
      var nodes := new Rec[scaffCount](_ => Rec(NamePart, One, 0, 0, 0));
      var strings := new char[contentStringLen];
      var contEnd, strEnd := BuildNode(0, 0, nodes, strings, 1, 0, root);
      assert contEnd == scaffCount && strEnd == contentStringLen;
      m := TreeModel(nodes[..], strings[..]);
    }

    /** The last closing parenthesis (expat/xmlparse.c:4430-4446). */
    method OnRootClose(ghost frames: seq<Frame>, q: Quant)
      requires Groups(frames) && |frames| == 1
      modifies this`scaffLevel, this`model, this`contentStringLen, scaffold
      ensures Sized() && contentStringLen == 0
      ensures Built(model, Tree(Group(Kind(frames[0]), q, frames[0].children)))
    {
      ghost var idx := scaffIndex[..scaffLevel];
      assert frames[..0] == [] && NamesLen(frames) == NameLenAll(frames[0].children);
      SetQuant(frames, q);
      assert scaffIndex[0] == 0 by {
        ghost var stack := scaffIndex[..1];
        assert Stack(Parts(), stack, frames, scaffCount, false);
        assert Stack(Parts(), stack[..0], frames[..0], stack[0], true);
      }
      model := BuildModel(Group(Kind(frames[0]), q, frames[0].children));
      contentStringLen := 0;
    }

    /** XML_ROLE_GROUP_CLOSE and its quantified forms. */
    method OnGroupClose(ghost s: State, q: Quant)
      requires Groups(s.frames) && s.frames != []
      modifies this`scaffLevel, this`model, this`contentStringLen, scaffold
      ensures var next := CloseGroup(s, q);
              Sized() && if next.frames == [] then contentStringLen == 0 && Built(model, next.content) else Groups(next.frames)
    {
      if scaffLevel == 1 {
        OnRootClose(s.frames, q);
      } else {
        OnInnerClose(s.frames, q);
      }
    }

    /** The action of `doProlog` on an opening parenthesis. */
    method ActOpen(t: Token, ghost s: State, ghost next: State)
      requires Wf(s) && Tables(s) && RoleMeans(RoleGroupOpen, t, s, next) && level == |s.frames| + 1
      modifies this`groupConnector, this`scaffIndex, this`scaffold, this`scaffCount, this`scaffLevel, groupConnector, scaffIndex, scaffold
      ensures (groupConnector == old(groupConnector) || fresh(groupConnector)) &&
              (scaffIndex == old(scaffIndex) || fresh(scaffIndex)) && (scaffold == old(scaffold) || fresh(scaffold))
      ensures Tables(next)
    {
      OnGroupOpen(s.frames);
    }

    /** On a name inside a group. */
    method ActElement(t: Token, quant: Quant, ghost s: State, ghost next: State)
      requires Tables(s) && RoleMeans(RoleElement(quant), t, s, next)
      modifies this`scaffIndex, this`scaffold, this`scaffCount, this`contentStringLen, scaffold
      ensures (scaffIndex == old(scaffIndex) || fresh(scaffIndex)) && (scaffold == old(scaffold) || fresh(scaffold))
      ensures Tables(next)
    {
      OnElement(s.frames, t.name, quant);
    }

    /** On `#PCDATA`. */
    method ActPcdata(t: Token, ghost s: State, ghost next: State)
      requires Tables(s) && RoleMeans(RolePcdata, t, s, next)
      modifies scaffold
      ensures Tables(next)
    {
      OnPcdata(s.frames);
    }

    /** On a connector, false for an error. */
    method ActConnector(t: Token, role: Role, ghost s: State, ghost next: State) returns (ok: bool)
      requires Wf(s) && Tables(s) && (role.RoleSequence? || role.RoleChoice?) && RoleMeans(role, t, s, next)
      requires level == |s.frames|
      modifies groupConnector, scaffold
      ensures ok == !next.handler.Error? && (ok ==> Tables(next))
    {
      if role.RoleSequence? {
        ok := OnSequence(s.frames);
      } else {
        ok := OnChoice(s.frames);
      }
    }

    /** On a closing parenthesis. */
    method ActClose(t: Token, q: Quant, ghost s: State, ghost next: State)
      requires Tables(s) && RoleMeans(RoleGroupClose(q), t, s, next)
      modifies this`scaffLevel, this`model, this`contentStringLen, scaffold
      ensures Tables(next)
    {
      OnGroupClose(s, q);
    }

    /** The roles of the element's name and of a content that is a keyword. */
    method ActOutside(t: Token, role: Role, ghost s: State, ghost next: State)
      requires Tables(s) && (role.RoleName? || role.RoleEmpty? || role.RoleAny?) && RoleMeans(role, t, s, next)
      modifies this`declName, this`scaffLevel, this`scaffCount, this`model
      ensures Tables(next)
    {
      if role.RoleName? {
        declName, scaffLevel, scaffCount := t.name, 0, 0;
      } else {
        model := if role.RoleEmpty? then EmptyModel else AnyModel;
      }
    }

    /** White space and the tokens that only change the handler leave the tables as they are. */
    lemma ActNone(t: Token, s: State, next: State)
      requires Tables(s) && RoleMeans(RoleNone, t, s, next)
      ensures Tables(next) == true
    {
    }

    /** The action of `doProlog` inside the parentheses. */
    method ActInside(t: Token, role: Role, ghost s: State, ghost next: State)
      requires Wf(s) && Tables(s) && RoleMeans(role, t, s, next)
      requires role.RoleGroupOpen? || role.RolePcdata? || role.RoleElement?
      requires role.RoleGroupOpen? ==> level == |s.frames| + 1
      modifies this`groupConnector, this`scaffIndex, this`scaffold, this`scaffCount, this`scaffLevel, this`contentStringLen, groupConnector, scaffIndex, scaffold
      ensures (groupConnector == old(groupConnector) || fresh(groupConnector)) &&
              (scaffIndex == old(scaffIndex) || fresh(scaffIndex)) && (scaffold == old(scaffold) || fresh(scaffold))
      ensures Tables(next) == true
    {
      if role.RoleGroupOpen? {
        ActOpen(t, s, next);
      } else if role.RolePcdata? {
        ActPcdata(t, s, next);
      } else {
        ActElement(t, role.quant, s, next);
      }
    }

    /** The action of `doProlog` on a role: false for a syntax error. */
    method Act(t: Token, role: Role, ghost s: State, ghost next: State) returns (ok: bool)
      requires Wf(s) && Tables(s) && RoleMeans(role, t, s, next)
      requires role.RoleGroupOpen? ==> level == |s.frames| + 1
      requires role.RoleSequence? || role.RoleChoice? ==> level == |s.frames|
      modifies this`groupConnector, this`scaffIndex, this`scaffold, this`scaffCount,
               this`scaffLevel, this`contentStringLen, this`declName, this`model, groupConnector, scaffIndex, scaffold
      ensures (groupConnector == old(groupConnector) || fresh(groupConnector)) &&
              (scaffIndex == old(scaffIndex) || fresh(scaffIndex)) && (scaffold == old(scaffold) || fresh(scaffold))
      ensures ok == !next.handler.Error? && (ok ==> Tables(next) == true)
    {
      ok := true;
      if role.RoleError? {
        ok := false;
      } else if role.RoleNone? {
        ActNone(t, s, next);
      } else if role.RoleName? || role.RoleEmpty? || role.RoleAny? {
        ActOutside(t, role, s, next);
      } else if role.RoleGroupClose? {
        ActClose(t, role.quant, s, next);
      } else if role.RoleSequence? || role.RoleChoice? {
        ok := ActConnector(t, role, s, next);
      } else {
        ActInside(t, role, s, next);
      }
    }

    /** One token while there is no error: its role, then the action on it. */
    method Advance(t: Token, ghost s: State, ghost next: State) returns (ok: bool)
      requires Wf(s) && At(s) && Tables(s) && !handler.Error? && next == Step(s, t)
      modifies this, groupConnector, scaffIndex, scaffold
      ensures (groupConnector == old(groupConnector) || fresh(groupConnector)) &&
              (scaffIndex == old(scaffIndex) || fresh(scaffIndex)) && (scaffold == old(scaffold) || fresh(scaffold))
      ensures ok == !next.handler.Error? && (ok ==> At(next) && Tables(next) == true)
    {
      var role := TokenRole(t, s);
      ok := Act(t, role, s, next);
    }

    /** One token of a declaration, false once it is in error. */
    method Feed(t: Token, ghost s: State) returns (ok: bool)
      requires Holds(s)
      modifies this, groupConnector, scaffIndex, scaffold
      ensures (groupConnector == old(groupConnector) || fresh(groupConnector)) &&
              (scaffIndex == old(scaffIndex) || fresh(scaffIndex)) && (scaffold == old(scaffold) || fresh(scaffold))
      ensures Holds(Step(s, t)) && ok == !Step(s, t).handler.Error?
    {
      ghost var next := Step(s, t);
      StepWf(s, t);
      if handler.Error? {
        return false;
      }
      ok := Advance(t, s, next);
      if !ok {
        handler := Error;
      }
    }
  }

  /** A whole declaration, token by token. It is accepted exactly when the tokens are the
      text of a declaration of section 3.2 of XML 1.0, and then the handler gets that
      declaration: its name, and a model that encodes its content and nothing else. */
  method Declare(ts: seq<Token>) returns (ok: bool, name: string, model: Model)
    ensures ok <==> exists d: Decl :: IsContent(d.content) && Strip(ts) == PrintDecl(d)
    ensures forall d: Decl :: IsContent(d.content) && Strip(ts) == PrintDecl(d) ==> name == d.name && Built(model, d.content)
  {
    var p := new Parser();
    ghost var s := START;
    var i := 0;
    while i < |ts|
      invariant 0 <= i <= |ts| && p.Holds(s) && fresh(p) && fresh(p.Arrays())
      invariant Run(START, ts) == Run(s, ts[i..])
    {
      ok := p.Feed(ts[i], s);
      assert ts[i..][0] == ts[i] && ts[i..][1..] == ts[i + 1..];
      s := Step(s, ts[i]);
      i := i + 1;
    }
    assert ts[|ts|..] == [];
    ok, name, model := p.handler.Accepted?, p.declName, p.model;
    RunWf(START, ts);
    Accepts(ts, s);
  }

  /** The final state tells whether the tokens are a declaration, and which one. */
  lemma Accepts(ts: seq<Token>, s: State)
    requires s == Run(START, ts) && Wf(s)
    ensures s.handler.Accepted? <==> exists d: Decl :: IsContent(d.content) && Strip(ts) == PrintDecl(d)
    ensures forall d: Decl :: IsContent(d.content) && Strip(ts) == PrintDecl(d) ==> s == State(Accepted, d.name, [], d.content)
  {
    forall d: Decl
      ensures (IsContent(d.content) && Strip(ts) == PrintDecl(d)) <==> s == State(Accepted, d.name, [], d.content)
    {
      AcceptsExactly(ts, d);
    }
    if s.handler.Accepted? {
      var d := Decl.Decl(s.name, s.content);
      assert s == State(Accepted, d.name, [], d.content);
    }
  }

  /** What a role says of the token, and of the recogniser's states before and after it. */
  ghost predicate RoleMeans(role: Role, t: Token, s: State, next: State) {
    match role
    case RoleNone =>
      next == s.(handler := next.handler) && !next.handler.Error? &&
      (next.handler == s.handler || (InGroup(s.handler) && InGroup(next.handler)) || (s.handler.EndDecl? && next.handler.Accepted?))
    case RoleName => s.handler.E0? && t.Name? && next == s.(handler := E1, name := t.name)
    case RoleEmpty => s.handler.E1? && next == s.(handler := EndDecl, content := Empty)
    case RoleAny => s.handler.E1? && next == s.(handler := EndDecl, content := Any)
    case RoleGroupOpen => (s.handler.E1? || InGroup(s.handler)) && InGroup(next.handler) && next == OpenGroup(s, next.handler)
    case RolePcdata =>
      InGroup(s.handler) && s.frames != [] && InGroup(next.handler) &&
      next == WithTop(s, Top(s).(mixed := true)).(handler := next.handler)
    case RoleElement(quant) =>
      InGroup(s.handler) && s.frames != [] && InGroup(next.handler) && t.Name? &&
      next == AddChild(s, Leaf(t.name, quant), next.handler)
    case RoleGroupClose(quant) => InGroup(s.handler) && s.frames != [] && next == CloseGroup(s, quant)
    case RoleSequence => s.handler.E7? && s.frames != [] && next == Connect(s, CommaConnector)
    case RoleChoice => s.handler.E7? && s.frames != [] && next == Connect(s, OrConnector)
    case RoleError => next.handler.Error?
  }

  /** Linking a new part changes the type of no group. */
  lemma LinkedTypes(sc: seq<Part>, idx: seq<nat>, frames: seq<Frame>, part: Part)
    requires Stack(sc, idx, frames, |sc|, false) && Types(sc, idx, frames)
    requires frames != [] ==> idx[|idx| - 1] < |sc| && sc[idx[|idx| - 1]].lastchild < |sc|
    ensures Types((if frames == [] then sc else Linked(sc, idx[|idx| - 1])) + [part], idx, frames)
  {
  }

  /** The content handed to the handler, once the declaration is complete. */
  ghost predicate Built(m: Model, c: Content) {
    match c
    case Empty => m.EmptyModel?
    case Any => m.AnyModel?
    case Tree(root) => m.TreeModel? && |m.nodes| == Size(root) && |m.strings| == NameLen(root) &&
                       Packed(m.nodes, m.strings, 0, 1, 0, root)
  }

  lemma NamesLenSnoc(frames: seq<Frame>, f: Frame)
    ensures NamesLen(frames + [f]) == NamesLen(frames) + NameLenAll(f.children)
  {
    assert (frames + [f])[..|frames|] == frames;
  }

  /** One more complete child in the innermost group. */
  ghost function WithChild(frames: seq<Frame>, n: Node): seq<Frame>
    requires frames != []
  {
    var k := |frames| - 1;
    frames[..k] + [frames[k].(children := frames[k].children + [n])]
  }

  lemma NamesLenChild(frames: seq<Frame>, n: Node)
    requires frames != []
    ensures NamesLen(WithChild(frames, n)) == NamesLen(frames) + NameLen(n)
  {
    var k := |frames| - 1;
    NamesLenSnoc(frames[..k], frames[k].(children := frames[k].children + [n]));
    NameLenSnoc(frames[k].children, n);
  }

  /** The part pushed last, complete. */
  lemma Complete(sc: seq<Part>, idx: seq<nat>, p: nat, frames: seq<Frame>, f: Frame, n: Node)
    requires frames != [] && Stack(sc, idx + [p], frames + [f], |sc|, false) && Types(sc, idx, frames)
    requires HasNode(sc, p, n) && p + Size(n) == |sc|
    ensures Stack(sc, idx, WithChild(frames, n), |sc|, false)
    ensures Types(sc, idx, WithChild(frames, n))
  {
    CompletePart(sc, idx + [p], frames + [f], n);
    assert (idx + [p])[..|frames|] == idx && (frames + [f])[..|frames| - 1] == frames[..|frames| - 1];
  }

  /** The innermost group changed, its children kept. */
  ghost function WithFrame(frames: seq<Frame>, f: Frame): seq<Frame>
    requires frames != []
  {
    frames[..|frames| - 1] + [f]
  }

  lemma StackFrame(sc: seq<Part>, idx: seq<nat>, frames: seq<Frame>, f: Frame)
    requires frames != [] && f.children == frames[|frames| - 1].children
    requires Stack(sc, idx, frames, |sc|, false)
    ensures Stack(sc, idx, WithFrame(frames, f), |sc|, false)
    ensures NamesLen(WithFrame(frames, f)) == NamesLen(frames)
  {
    assert WithFrame(frames, f)[..|frames| - 1] == frames[..|frames| - 1];
  }

  lemma TypesBelow(sc: seq<Part>, idx: seq<nat>, frames: seq<Frame>)
    requires frames != [] && Types(sc, idx, frames)
    ensures Types(sc, idx[..|frames| - 1], frames[..|frames| - 1])
  {
  }

  lemma Snoc(nodes: seq<Node>, i: nat)
    requires i < |nodes|
    ensures nodes[..i + 1] == nodes[..i] + [nodes[i]]
    ensures SizeAll(nodes[..i + 1]) == SizeAll(nodes[..i]) + Size(nodes[i])
    ensures NameLenAll(nodes[..i + 1]) == NameLenAll(nodes[..i]) + NameLen(nodes[i])
  {
    SizeSnoc(nodes[..i], nodes[i]);
    NameLenSnoc(nodes[..i], nodes[i]);
  }

  /** The first `i` children fit with one slot for each of the others. */
  lemma Room(nodes: seq<Node>, i: nat)
    requires i <= |nodes|
    ensures SizeAll(nodes[..i]) + |nodes| - i <= SizeAll(nodes)
    ensures NameLenAll(nodes[..i]) <= NameLenAll(nodes)
  {
    SizesSplit(nodes, i);
  }

  lemma {:induction false} SizesSplit(nodes: seq<Node>, i: nat)
    requires i <= |nodes|
    ensures SizeAll(nodes) == SizeAll(nodes[..i]) + SizeAll(nodes[i..])
    ensures NameLenAll(nodes) == NameLenAll(nodes[..i]) + NameLenAll(nodes[i..])
    decreases i
  {
    if i == 0 {
      assert nodes[..0] == [] && nodes[0..] == nodes;
    } else {
      SizesSplit(nodes[1..], i - 1);
      assert nodes[1..][..i - 1] == nodes[..i][1..] && nodes[1..][i - 1..] == nodes[i..];
    }
  }
}
