/**
 * Saving and loading descriptors (`_desc_to_dict` and `_dict_to_desc` of
 * serial.py): a descriptor becomes a dictionary tagged with its class name,
 * and a tagged dictionary becomes a descriptor again.
 */
module Serial {
  import opened Common
  import opened Bits
  import opened Netlist

  // ---------------------------------------------------------------- values

  /**
   * The values the encoder builds and the decoder reads: what JSON holds.
   * An `Obj` is a dictionary, its fields in insertion order.
   */
  datatype Value =
    | Str(s: string)
    | Int(i: int)
    | Bool(b: bool)
    | List(items: seq<Value>)
    | Obj(fields: seq<Field>)

  datatype Field = Field(key: string, val: Value)

  function Keys(fields: seq<Field>): (ks: seq<string>)
    ensures |ks| == |fields|
    ensures forall i :: 0 <= i < |fields| ==> ks[i] == fields[i].key
  {
    seq(|fields|, i requires 0 <= i < |fields| => fields[i].key)
  }

  /** Position of `key` in the dictionary. */
  function Find(fields: seq<Field>, key: string): (r: Option<nat>)
    ensures r.Some? ==> r.value < |fields| && fields[r.value].key == key
    ensures r.Some? ==> forall j :: 0 <= j < r.value ==> fields[j].key != key
    ensures r.None? <==> key !in Keys(fields)
  {
    if fields == [] then None
    else if fields[0].key == key then Some(0)
    else
      match Find(fields[1..], key)
      case None =>
        assert forall k :: k in Keys(fields) ==> k == fields[0].key || k in Keys(fields[1..]) by {
          forall k | k in Keys(fields) ensures k == fields[0].key || k in Keys(fields[1..]) {
            var i :| 0 <= i < |fields| && Keys(fields)[i] == k;
            if i > 0 { assert Keys(fields[1..])[i - 1] == k; }
          }
        }
        None
      case Some(i) => Some(i + 1)
  }

  /** `d[key] = v`: overwrite the value of a present key in place, else add the key at the end. */
  function Put(fields: seq<Field>, key: string, v: Value): (r: seq<Field>)
    ensures |fields| <= |r|
    ensures forall k :: k in Keys(r) <==> k in Keys(fields) || k == key
    ensures Distinct(Keys(fields)) ==> Distinct(Keys(r))
    ensures Distinct(Keys(fields)) ==>
              forall i :: 0 <= i < |fields| ==> r[i] == if fields[i].key == key then Field(key, v) else fields[i]
    ensures key !in Keys(fields) ==> r == fields + [Field(key, v)]
  {
    match Find(fields, key)
    case Some(i) =>
      var r := fields[i := Field(key, v)];
      assert Keys(r) == Keys(fields);
      r
    case None =>
      var r := fields + [Field(key, v)];
      assert Keys(r) == Keys(fields) + [key];
      r
  }

  lemma NamesSnoc(cs: seq<Child>, n: nat)
    requires 1 <= n <= |cs|
    ensures Names(cs[..n]) == Names(cs[..n - 1]) + [cs[n - 1].name]
  {
  }

  // ---------------------------------------------------------------- the tag tables

  /** The descriptor classes `_DESC_TO_NAME` knows. */
  datatype Kind = NotKind | GateKind | CompositeKind | ExposedPinKind

  /** `_DESC_TO_NAME`. */
  function KindName(k: Kind): string
  {
    match k
    case NotKind => "not"
    case GateKind => "gate"
    case CompositeKind => "schematic"
    case ExposedPinKind => "exposed_pin"
  }

  /** `_DESC_TO_NAME.inverse`: a name maps back to the one class carrying it, if any. */
  function KindOfName(s: string): (r: Option<Kind>)
    ensures r.Some? ==> KindName(r.value) == s
    ensures r.None? <==> forall k :: KindName(k) != s
    ensures forall k :: KindName(k) == s ==> r == Some(k)
  {
    if s == "not" then Some(NotKind)
    else if s == "gate" then Some(GateKind)
    else if s == "schematic" then Some(CompositeKind)
    else if s == "exposed_pin" then Some(ExposedPinKind)
    else None
  }

  /** `type(desc)` as a key of `_DESC_TO_NAME`: the other descriptor classes are not registered. */
  function KindOf(d: Desc): (r: Option<Kind>)
    ensures r == Some(NotKind) <==> d.Not?
    ensures r == Some(GateKind) <==> d.Gate?
    ensures r == Some(CompositeKind) <==> d.Schematic?
    ensures r == Some(ExposedPinKind) <==> d.ExposedPin?
  {
    match d
    case Not(_) => Some(NotKind)
    case Gate(_, _, _, _) => Some(GateKind)
    case Schematic(_, _) => Some(CompositeKind)
    case ExposedPin(_, _) => Some(ExposedPinKind)
    case _ => None
  }

  /** `_OP_TO_NAME`. */
  function OpName(op: GateOp): string
  {
    match op
    case And => "and"
    case Or => "or"
    case Xor => "xor"
  }

  /** `_OP_TO_NAME.inverse`. */
  function OpOfName(s: string): (r: Option<GateOp>)
    ensures r.Some? ==> OpName(r.value) == s
    ensures r.None? <==> forall op :: OpName(op) != s
    ensures forall op :: OpName(op) == s ==> r == Some(op)
  {
    if s == "and" then Some(And)
    else if s == "or" then Some(Or)
    else if s == "xor" then Some(Xor)
    else None
  }

  /** The direction an exposed pin is saved with: `in` for an input, `out` otherwise. */
  function DirectionName(dir: Direction): string
  {
    if dir == In then "in" else "out"
  }

  // ---------------------------------------------------------------- encoding

  /** Every descriptor in the tree has a registered class, so encoding reaches no missing key. */
  predicate Registered(d: Desc)
    decreases d
  {
    && KindOf(d).Some?
    && (d.Schematic? ==> forall i :: 0 <= i < |d.children| ==> Registered(d.children[i].desc))
  }

  /** The child names of every composite in the tree are distinct, as the keys of a dictionary are. */
  predicate Keyed(d: Desc)
    decreases d
  {
    && (d.Schematic? ==> Distinct(Names(d.children)))
    && (d.Schematic? ==> forall i :: 0 <= i < |d.children| ==> Keyed(d.children[i].desc))
  }

  /** `list(conn)`: a connection as the list of its four parts. */
  function EncodeConn(c: Conn): Value
  {
    List([Str(c.srcChild), Str(c.srcPin), Str(c.dstChild), Str(c.dstPin)])
  }

  /** The saved connection list: each connection as a list of its four parts, in order. */
  function EncodeConns(conns: seq<Conn>): (r: seq<Value>)
    ensures |r| == |conns| && forall i :: 0 <= i < |conns| ==> r[i] == EncodeConn(conns[i])
  {
    if conns == [] then [] else [EncodeConn(conns[0])] + EncodeConns(conns[1..])
  }

  /**
   * `_desc_to_dict`: the `type` tag first, then the fields of the class in
   * the order the encoder assigns them; an unregistered class anywhere in the
   * tree fails at the tag lookup.
   */
  function Encode(d: Desc): (r: Result<Value, string>)
    ensures r.Ok? <==> Registered(d)
    ensures r.Ok? ==> r.value.Obj? && |r.value.fields| >= 1
                      && r.value.fields[0] == Field("type", Str(KindName(KindOf(d).value)))
    ensures r.Ok? ==> Distinct(Keys(r.value.fields))
    decreases d, 1, 0
  {
    if KindOf(d).None? then Err("KeyError: unregistered descriptor class")
    else
      var tag := Field("type", Str(KindName(KindOf(d).value)));
      match d
      case Not(w) => Ok(Obj([tag, Field("width", Int(w))]))
      case Gate(op, w, n, neg) =>
        Ok(Obj([tag, Field("num_inputs", Int(n)), Field("width", Int(w)),
                Field("negated", Bool(neg)), Field("op", Str(OpName(op)))]))
      case ExposedPin(dir, w) => Ok(Obj([tag, Field("width", Int(w)), Field("direction", Str(DirectionName(dir)))]))
      case Schematic(cs, conns) =>
        var ch := EncodeChildren(d, |cs|);
        if ch.Err? then Err(ch.error)
        else
          Ok(Obj([tag, Field("children", Obj(ch.value)), Field("connections", List(EncodeConns(conns)))]))
      case _ => Err("KeyError: unregistered descriptor class")
  }

  /** The saved children dictionary over the first `n` children of a composite: each encoded under its name. */
  function EncodeChildren(d: Desc, n: nat): (r: Result<seq<Field>, string>)
    requires d.Schematic? && n <= |d.children|
    ensures r.Ok? <==> forall i :: 0 <= i < n ==> Registered(d.children[i].desc)
    ensures r.Ok? ==> Distinct(Keys(r.value))
    decreases d, 0, n
  {
    if n == 0 then Ok([])
    else
      var c := d.children[n - 1];
      var front := EncodeChildren(d, n - 1);
      var e := Encode(c.desc);
      NamesSnoc(d.children, n);
      if front.Err? then Err(front.error)
      else if e.Err? then Err(e.error)
      else Ok(Put(front.value, c.name, e.value))
  }

  // ---------------------------------------------------------------- decoding

  /** `d[key]`, a `KeyError` when absent. */
  function Get(fields: seq<Field>, key: string): (r: Result<Value, string>)
    ensures r.Err? <==> forall i :: 0 <= i < |fields| ==> fields[i].key != key
    ensures r.Ok? ==> Field(key, r.value) in fields
  {
    if fields == [] then Err("KeyError: " + key)
    else if fields[0].key == key then Ok(fields[0].val)
    else
      assert forall i :: 1 <= i < |fields| ==> fields[1..][i - 1] == fields[i];
      Get(fields[1..], key)
  }

  /** The value under a key is the one at its first position. */
  lemma {:induction false} GetAt(fields: seq<Field>, i: nat)
    requires i < |fields| && forall j :: 0 <= j < i ==> fields[j].key != fields[i].key
    ensures Get(fields, fields[i].key) == Ok(fields[i].val)
  {
    if i > 0 {
      GetAt(fields[1..], i - 1);
    }
  }

  function GetStr(fields: seq<Field>, key: string): (r: Result<string, string>)
    ensures r.Ok? <==> Get(fields, key).Ok? && Get(fields, key).value.Str?
    ensures r.Ok? ==> Get(fields, key).value == Str(r.value)
  {
    var v :- Get(fields, key);
    if v.Str? then Ok(v.s) else Err("TypeError: " + key)
  }

  /** A width as the model's descriptors carry it: an integer from 1 to 64. */
  function GetWidth(fields: seq<Field>, key: string): (r: Result<Width, string>)
    ensures r.Ok? <==> Get(fields, key).Ok? && Get(fields, key).value.Int?
                       && 1 <= Get(fields, key).value.i <= MAX_WIDTH
    ensures r.Ok? ==> Get(fields, key).value == Int(r.value)
  {
    var v :- Get(fields, key);
    if v.Int? && 1 <= v.i <= MAX_WIDTH then Ok(v.i) else Err("ValueError: " + key)
  }

  /** The decoded connection: a list of exactly four strings, the arguments of `connect`. */
  function DecodeConn(v: Value): (r: Result<Conn, string>)
    ensures r.Ok? ==> EncodeConn(r.value) == v
    ensures forall c :: v == EncodeConn(c) ==> r == Ok(c)
  {
    if v.List? && |v.items| == 4 && v.items[0].Str? && v.items[1].Str? && v.items[2].Str? && v.items[3].Str? then
      Ok(Conn(v.items[0].s, v.items[1].s, v.items[2].s, v.items[3].s))
    else Err("TypeError: connect")
  }

  /** Replaying the saved connections: every one decoded and connected, in list order. */
  function DecodeConns(items: seq<Value>): (r: Result<seq<Conn>, string>)
    ensures r.Ok? <==> forall i :: 0 <= i < |items| ==> DecodeConn(items[i]).Ok?
    ensures r.Ok? ==> |r.value| == |items| && forall i :: 0 <= i < |items| ==> DecodeConn(items[i]) == Ok(r.value[i])
  {
    if items == [] then Ok([])
    else
      var c :- DecodeConn(items[0]);
      var rest :- DecodeConns(items[1..]);
      Ok([c] + rest)
  }

  /**
   * `add_child(name, desc)`: the composite's children are a dictionary, so a
   * name already present keeps its place and takes the new descriptor.
   */
  function AddChild(cs: seq<Child>, name: string, desc: Desc): (r: seq<Child>)
    ensures |cs| <= |r|
    ensures forall k :: k in Names(r) <==> k in Names(cs) || k == name
    ensures forall c :: c in r ==> c in cs || c == Child(name, desc)
    ensures Distinct(Names(cs)) ==> Distinct(Names(r))
    ensures Distinct(Names(cs)) ==>
              forall i :: 0 <= i < |cs| ==> r[i] == if cs[i].name == name then Child(name, desc) else cs[i]
    ensures name !in Names(cs) ==> r == cs + [Child(name, desc)]
  {
    if name in Names(cs) then
      var r := cs[IndexOf(cs, name) := Child(name, desc)];
      assert Names(r) == Names(cs);
      r
    else
      var r := cs + [Child(name, desc)];
      assert Names(r) == Names(cs) + [name];
      r
  }

  /**
   * `_dict_to_desc`: look the `type` tag up in the inverse table, then build
   * the descriptor of that class from the fields it reads. A value that is
   * not a dictionary, a missing key or an unknown tag fails.
   */
  function Decode(v: Value): (r: Result<Desc, string>)
    ensures r.Ok? ==> v.Obj? && GetStr(v.fields, "type").Ok?
    ensures r.Ok? ==> KindOfName(GetStr(v.fields, "type").value) == KindOf(r.value)
    ensures v.Obj? && GetStr(v.fields, "type").Ok? && KindOfName(GetStr(v.fields, "type").value).None? ==> r.Err?
    ensures r.Ok? ==> Registered(r.value) && Keyed(r.value)
    decreases v, 1
  {
    if !v.Obj? then Err("TypeError: not a dictionary")
    else
      match GetStr(v.fields, "type")
      case Err(e) => Err(e)
      case Ok(tag) =>
        if KindOfName(tag) == Some(NotKind) then DecodeNot(v.fields)
        else if KindOfName(tag) == Some(GateKind) then DecodeGate(v.fields)
        else if KindOfName(tag) == Some(CompositeKind) then DecodeComposite(v)
        else if KindOfName(tag) == Some(ExposedPinKind) then DecodeExposedPin(v.fields)
        else Err("KeyError: " + tag)
  }

  /** An inverter built from the dictionary's `width`. */
  function DecodeNot(fields: seq<Field>): (r: Result<Desc, string>)
    ensures r.Ok? <==> GetWidth(fields, "width").Ok?
    ensures r.Ok? ==> r.value.Not? && Get(fields, "width") == Ok(Int(r.value.width))
  {
    var w :- GetWidth(fields, "width");
    Ok(Not(w))
  }

  /** A gate built from the dictionary's op name (looked up in the inverse op table), width, input count and negation. */
  function DecodeGate(fields: seq<Field>): (r: Result<Desc, string>)
    ensures GetStr(fields, "op").Ok? && OpOfName(GetStr(fields, "op").value).None? ==> r.Err?
    ensures r.Ok? ==> && r.value.Gate?
                      && Get(fields, "op") == Ok(Str(OpName(r.value.op)))
                      && Get(fields, "width") == Ok(Int(r.value.width))
                      && Get(fields, "num_inputs") == Ok(Int(r.value.numInputs))
                      && Get(fields, "negated") == Ok(Bool(r.value.negated))
  {
    var opName :- GetStr(fields, "op");
    if OpOfName(opName).None? then Err("KeyError: " + opName)
    else
      var w :- GetWidth(fields, "width");
      var n :- Get(fields, "num_inputs");
      var neg :- Get(fields, "negated");
      if !n.Int? || n.i < 0 || !neg.Bool? then Err("TypeError: gate")
      else Ok(Gate(OpOfName(opName).value, w, n.i, neg.b))
  }

  /** An exposed pin: an input when its saved direction is `in`, an output for any other direction, at the saved width. */
  function DecodeExposedPin(fields: seq<Field>): (r: Result<Desc, string>)
    ensures r.Ok? <==> Get(fields, "direction").Ok? && GetWidth(fields, "width").Ok?
    ensures r.Ok? ==> && r.value.ExposedPin?
                      && Get(fields, "width") == Ok(Int(r.value.width))
                      && (r.value.direction == In <==> Get(fields, "direction").value == Str("in"))
  {
    var dir :- Get(fields, "direction");
    var w :- GetWidth(fields, "width");
    Ok(ExposedPin(if dir == Str("in") then In else Out, w))
  }

  /** A new `Composite()`, every child added in dictionary order, then every connection replayed in list order. */
  function DecodeComposite(v: Value): (r: Result<Desc, string>)
    requires v.Obj?
    ensures r.Ok? ==> && r.value.Schematic?
                      && Get(v.fields, "children").Ok? && Get(v.fields, "children").value.Obj?
                      && DecodeChildren(Get(v.fields, "children").value, |Get(v.fields, "children").value.fields|)
                         == Ok(r.value.children)
                      && Get(v.fields, "connections").Ok? && Get(v.fields, "connections").value.List?
                      && DecodeConns(Get(v.fields, "connections").value.items) == Ok(r.value.connections)
    ensures r.Ok? ==> Registered(r.value) && Keyed(r.value)
    decreases v, 0
  {
    var ch :- Get(v.fields, "children");
    if !ch.Obj? then Err("TypeError: children")
    else
      var cs :- DecodeChildren(ch, |ch.fields|);
      var ls :- Get(v.fields, "connections");
      if !ls.List? then Err("TypeError: connections")
      else
        var conns :- DecodeConns(ls.items);
        SavableComposite(cs, conns);
        Ok(Schematic(cs, conns))
  }

  /** The first `n` items of the saved children dictionary, each decoded and added under its name in order. */
  function DecodeChildren(ch: Value, n: nat): (r: Result<seq<Child>, string>)
    requires ch.Obj? && n <= |ch.fields|
    ensures r.Ok? ==> |r.value| <= n && Distinct(Names(r.value))
    ensures r.Ok? ==> AllSavable(r.value)
    decreases ch, 0, n
  {
    if n == 0 then Ok([])
    else
      var f := ch.fields[n - 1];
      var front :- DecodeChildren(ch, n - 1);
      var d :- Decode(f.val);
      AddChildSavable(front, f.key, d);
      Ok(AddChild(front, f.key, d))
  }

  /** Every child's class has a tag and every composite below has distinct child names. */
  ghost predicate AllSavable(cs: seq<Child>)
  {
    forall c :: c in cs ==> Registered(c.desc) && Keyed(c.desc)
  }

  /** A composite of savable children with distinct names is savable. */
  lemma SavableComposite(cs: seq<Child>, conns: seq<Conn>)
    requires AllSavable(cs) && Distinct(Names(cs))
    ensures Registered(Schematic(cs, conns)) && Keyed(Schematic(cs, conns))
  {
    assert forall i :: 0 <= i < |cs| ==> cs[i] in cs;
  }

  /** Storing a savable child among savable children leaves them all savable. */
  lemma AddChildSavable(cs: seq<Child>, name: string, d: Desc)
    requires AllSavable(cs)
    requires Registered(d) && Keyed(d)
    ensures AllSavable(AddChild(cs, name, d))
  {
    forall c | c in AddChild(cs, name, d) ensures Registered(c.desc) && Keyed(c.desc) {
      assert c in cs || c == Child(name, d);
    }
  }

  // ---------------------------------------------------------------- the round trip

  /** The first `n` items of `fs` are the first `n` children of `cs`, each under its name, encoded. */
  ghost predicate EncodesChildren(fs: seq<Field>, cs: seq<Child>, n: nat)
    decreases n
  {
    && n <= |fs| && n <= |cs|
    && (n > 0 ==> && EncodesChildren(fs, cs, n - 1)
                  && fs[n - 1].key == cs[n - 1].name && Encode(cs[n - 1].desc) == Ok(fs[n - 1].val))
  }

  /** Appending to the dictionary keeps the items already there. */
  lemma {:induction false} EncodesExtend(fs: seq<Field>, g: seq<Field>, cs: seq<Child>, n: nat)
    requires EncodesChildren(fs, cs, n)
    ensures EncodesChildren(fs + g, cs, n)
  {
    if n > 0 {
      EncodesExtend(fs, g, cs, n - 1);
      assert (fs + g)[n - 1] == fs[n - 1];
    }
  }

  /** With distinct names, no child's name occurs among the children before it. */
  lemma NameNotEarlier(cs: seq<Child>, n: nat)
    requires Distinct(Names(cs)) && 1 <= n <= |cs|
    ensures forall j :: 0 <= j < n - 1 ==> cs[j].name != cs[n - 1].name
  {
  }

  lemma {:induction false} EncodeChildrenFields(d: Desc, n: nat)
    requires d.Schematic? && Registered(d) && Distinct(Names(d.children)) && n <= |d.children|
    ensures EncodeChildren(d, n).Ok? && |EncodeChildren(d, n).value| == n
    ensures EncodesChildren(EncodeChildren(d, n).value, d.children, n)
    decreases n
  {
    if n > 0 {
      EncodeChildrenFields(d, n - 1);
      NameNotEarlier(d.children, n);
      KeyFresh(EncodeChildren(d, n - 1).value, d.children, n);
      assert Registered(d.children[n - 1].desc);
      EncodeChildStep(d, n, EncodeChildren(d, n - 1).value);
    }
  }

  /** The items are keyed by the children's names, in order. */
  lemma {:induction false} EncodesKeys(fs: seq<Field>, cs: seq<Child>, n: nat)
    requires EncodesChildren(fs, cs, n)
    ensures forall j :: 0 <= j < n ==> fs[j].key == cs[j].name
  {
    if n > 0 {
      EncodesKeys(fs, cs, n - 1);
    }
  }

  lemma KeyFresh(front: seq<Field>, cs: seq<Child>, n: nat)
    requires 1 <= n <= |cs| && |front| == n - 1 && EncodesChildren(front, cs, n - 1)
    requires forall j :: 0 <= j < n - 1 ==> cs[j].name != cs[n - 1].name
    ensures cs[n - 1].name !in Keys(front)
  {
    EncodesKeys(front, cs, n - 1);
    forall j | 0 <= j < n - 1 ensures Keys(front)[j] != cs[n - 1].name {
    }
  }

  /** The next child, under a name not yet used, is appended to the dictionary. */
  lemma EncodeChildStep(d: Desc, n: nat, front: seq<Field>)
    requires d.Schematic? && 1 <= n <= |d.children| && Registered(d.children[n - 1].desc)
    requires EncodeChildren(d, n - 1) == Ok(front) && |front| == n - 1 && EncodesChildren(front, d.children, n - 1)
    requires d.children[n - 1].name !in Keys(front)
    ensures var c := d.children[n - 1];
            EncodeChildren(d, n) == Ok(front + [Field(c.name, Encode(c.desc).value)])
    ensures EncodeChildren(d, n).Ok? && EncodesChildren(EncodeChildren(d, n).value, d.children, n)
  {
    var c := d.children[n - 1];
    var f := Field(c.name, Encode(c.desc).value);
    assert EncodeChildren(d, n) == Ok(front + [f]);
    EncodesExtend(front, [f], d.children, n - 1);
    assert (front + [f])[n - 1] == f;
  }

  /** The first `n` items of `fs` decode to the first `n` children of `cs`, each under its name. */
  ghost predicate DecodesTo(fs: seq<Field>, cs: seq<Child>, n: nat)
    decreases n
  {
    && n <= |fs| && n <= |cs|
    && (n > 0 ==> && DecodesTo(fs, cs, n - 1)
                  && fs[n - 1].key == cs[n - 1].name && Decode(fs[n - 1].val) == Ok(cs[n - 1].desc))
  }

  lemma {:induction false} DecodeChildFields(cs: seq<Child>, ch: Value, n: nat)
    requires ch.Obj? && Distinct(Names(cs)) && DecodesTo(ch.fields, cs, n)
    ensures DecodeChildren(ch, n) == Ok(cs[..n])
  {
    if n > 0 {
      DecodeChildFields(cs, ch, n - 1);
      NameFresh(cs, n);
      DecodeChildStep(ch, n, cs[..n - 1], cs[n - 1]);
      Snoc(cs, n);
    }
  }

  /** With distinct names, the `n`-th child's name is not among those before it. */
  lemma NameFresh(cs: seq<Child>, n: nat)
    requires 1 <= n <= |cs| && Distinct(Names(cs))
    ensures cs[n - 1].name !in Names(cs[..n - 1])
  {
    var front := cs[..n - 1];
    forall j | 0 <= j < |front| ensures Names(front)[j] != cs[n - 1].name {
      assert Names(cs)[j] == cs[j].name;
    }
  }

  lemma Snoc(cs: seq<Child>, n: nat)
    requires 1 <= n <= |cs|
    ensures cs[..n - 1] + [cs[n - 1]] == cs[..n]
  {
  }

  /** One more item of the children dictionary, decoded to `c` under a name not seen before, is appended. */
  lemma DecodeChildStep(ch: Value, n: nat, front: seq<Child>, c: Child)
    requires ch.Obj? && 1 <= n <= |ch.fields| && ch.fields[n - 1].key == c.name && c.name !in Names(front)
    requires DecodeChildren(ch, n - 1) == Ok(front) && Decode(ch.fields[n - 1].val) == Ok(c.desc)
    ensures DecodeChildren(ch, n) == Ok(front + [c])
  {
  }

  lemma {:induction false} DecodeEncodedConns(conns: seq<Conn>)
    ensures DecodeConns(EncodeConns(conns)) == Ok(conns)
  {
    var r := DecodeConns(EncodeConns(conns));
    assert r.Ok?;
    assert forall i :: 0 <= i < |conns| ==> DecodeConn(EncodeConns(conns)[i]) == Ok(conns[i]);
    assert r.value == conns;
  }

  /**
   * Loading what was saved gives the descriptor back: every field the
   * encoder writes is the one the decoder reads for the same class,
   * children come back in order under their names, and the connections are
   * replayed in list order.
   */
  lemma {:induction false} RoundTrip(d: Desc)
    requires Registered(d) && Keyed(d)
    ensures Encode(d).Ok? && Decode(Encode(d).value) == Ok(d)
    decreases d, 1, 0
  {
    match d
    case Not(w) => RoundTripNot(w);
    case Gate(op, w, n, neg) => RoundTripGate(op, w, n, neg);
    case ExposedPin(dir, w) => RoundTripExposedPin(dir, w);
    case Schematic(_, _) => RoundTripSchematic(d);
  }

  lemma RoundTripNot(w: Width)
    ensures Encode(Not(w)).Ok? && Decode(Encode(Not(w)).value) == Ok(Not(w))
  {
    var fields := [Field("type", Str("not")), Field("width", Int(w))];
    assert Encode(Not(w)) == Ok(Obj(fields));
    DecodeNotFields(w);
    assert Decode(Obj(fields)) == DecodeNot(fields);
  }

  lemma DecodeNotFields(w: Width)
    ensures var fields := [Field("type", Str("not")), Field("width", Int(w))];
            GetStr(fields, "type") == Ok("not") && DecodeNot(fields) == Ok(Not(w))
  {
    var fields := [Field("type", Str("not")), Field("width", Int(w))];
    GetAt(fields, 0);
    GetAt(fields, 1);
    assert DecodeNot(fields) == Ok(Not(w));
  }

  lemma RoundTripGate(op: GateOp, w: Width, n: nat, neg: bool)
    ensures var g := Gate(op, w, n, neg); Encode(g).Ok? && Decode(Encode(g).value) == Ok(g)
  {
    var fields := GateFields(op, w, n, neg);
    assert Encode(Gate(op, w, n, neg)) == Ok(Obj(fields));
    DecodeGateFields(op, w, n, neg);
    assert Decode(Obj(fields)) == DecodeGate(fields);
  }

  /** The dictionary `_desc_to_dict` writes for a gate. */
  function GateFields(op: GateOp, w: Width, n: nat, neg: bool): seq<Field>
  {
    [Field("type", Str("gate")), Field("num_inputs", Int(n)), Field("width", Int(w)),
     Field("negated", Bool(neg)), Field("op", Str(OpName(op)))]
  }

  lemma DecodeGateFields(op: GateOp, w: Width, n: nat, neg: bool)
    ensures GetStr(GateFields(op, w, n, neg), "type") == Ok("gate")
    ensures DecodeGate(GateFields(op, w, n, neg)) == Ok(Gate(op, w, n, neg))
  {
    GateFieldsFound(op, w, n, neg);
    DecodeGateOf(GateFields(op, w, n, neg), op, w, n, neg);
  }

  /** Whatever else the dictionary holds, the four gate keys decide the decoded gate. */
  lemma DecodeGateOf(fields: seq<Field>, op: GateOp, w: Width, n: nat, neg: bool)
    requires Get(fields, "num_inputs") == Ok(Int(n)) && Get(fields, "width") == Ok(Int(w))
    requires Get(fields, "negated") == Ok(Bool(neg)) && Get(fields, "op") == Ok(Str(OpName(op)))
    ensures DecodeGate(fields) == Ok(Gate(op, w, n, neg))
  {
    assert GetStr(fields, "op") == Ok(OpName(op));
    assert OpOfName(OpName(op)) == Some(op);
    assert GetWidth(fields, "width") == Ok(w);
  }

  /** Each key of the gate's dictionary looks up the value written under it. */
  lemma GateFieldsFound(op: GateOp, w: Width, n: nat, neg: bool)
    ensures var fields := GateFields(op, w, n, neg);
            && Get(fields, "type") == Ok(Str("gate")) && Get(fields, "num_inputs") == Ok(Int(n))
            && Get(fields, "width") == Ok(Int(w)) && Get(fields, "negated") == Ok(Bool(neg))
            && Get(fields, "op") == Ok(Str(OpName(op)))
  {
    var fields := GateFields(op, w, n, neg);
    assert forall i, j :: 0 <= j < i < 5 ==> fields[j].key != fields[i].key;
    GetAt(fields, 0);
    GetAt(fields, 1);
    GetAt(fields, 2);
    GetAt(fields, 3);
    GetAt(fields, 4);
  }

  lemma RoundTripExposedPin(dir: Direction, w: Width)
    ensures var p := ExposedPin(dir, w); Encode(p).Ok? && Decode(Encode(p).value) == Ok(p)
  {
    var fields := [Field("type", Str("exposed_pin")), Field("width", Int(w)), Field("direction", Str(DirectionName(dir)))];
    assert Encode(ExposedPin(dir, w)) == Ok(Obj(fields));
    DecodeExposedPinFields(dir, w);
    assert Decode(Obj(fields)) == DecodeExposedPin(fields);
  }

  lemma DecodeExposedPinFields(dir: Direction, w: Width)
    ensures var fields := [Field("type", Str("exposed_pin")), Field("width", Int(w)), Field("direction", Str(DirectionName(dir)))];
            GetStr(fields, "type") == Ok("exposed_pin") && DecodeExposedPin(fields) == Ok(ExposedPin(dir, w))
  {
    var fields := [Field("type", Str("exposed_pin")), Field("width", Int(w)), Field("direction", Str(DirectionName(dir)))];
    GetAt(fields, 0);
    GetAt(fields, 1);
    GetAt(fields, 2);
    assert DecodeExposedPin(fields) == Ok(ExposedPin(dir, w));
  }

  lemma {:induction false} RoundTripSchematic(d: Desc)
    requires d.Schematic? && Registered(d) && Keyed(d)
    ensures Encode(d).Ok? && Decode(Encode(d).value) == Ok(d)
    decreases d, 0, |d.children| + 1
  {
    var cs := d.children;
    EncodeChildrenFields(d, |cs|);
    var ch := Obj(EncodeChildren(d, |cs|).value);
    var v := Encode(d).value;
    assert v.fields == [Field("type", Str("schematic")), Field("children", ch), Field("connections", List(EncodeConns(d.connections)))];
    GetAt(v.fields, 0);
    GetAt(v.fields, 1);
    GetAt(v.fields, 2);
    ChildrenRoundTrip(d, ch.fields, |cs|);
    DecodeChildFields(cs, ch, |cs|);
    assert cs[..|cs|] == cs;
    DecodeEncodedConns(d.connections);
    assert DecodeComposite(v) == Ok(d);
    assert Decode(v) == DecodeComposite(v);
  }

  /** Each encoded child decodes back to its descriptor. */
  lemma {:induction false} ChildrenRoundTrip(d: Desc, fs: seq<Field>, n: nat)
    requires d.Schematic? && Registered(d) && Keyed(d)
    requires n <= |d.children| && EncodesChildren(fs, d.children, n)
    ensures DecodesTo(fs, d.children, n)
    decreases d, 0, n
  {
    if n > 0 {
      var c := d.children[n - 1];
      ChildrenRoundTrip(d, fs, n - 1);
      assert Registered(c.desc) && Keyed(c.desc);
      RoundTrip(c.desc);
    }
  }
}
