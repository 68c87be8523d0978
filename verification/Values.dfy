/** The three recursive value translations of src/types/values.rs. */
module Values {
  import opened Results

  datatype LoroValue =
    | Null | Bool(b: bool) | I64(i: int) | Double(f: real) | String(s: string)
    | List(items: seq<LoroValue>) | Map(entries: map<string, LoroValue>)
    | Binary(bytes: seq<nat>) | Container(id: string)

  datatype GraphValue =
    | GNull | GBool(b: bool) | Integer(i: int) | Float(f: real) | GString(s: string)
    | Vector(v: seq<real>) | GMap(entries: map<string, GraphValue>) | GList(items: seq<GraphValue>)

  /** `Exotic` stands for timestamps, dates, durations, paths, counters and bytes. */
  datatype StoreValue =
    | SNull | SBool(b: bool) | Int64(i: int) | Float64(f: real) | SString(s: string)
    | SVector(v: seq<real>) | SMap(entries: map<string, StoreValue>) | SList(items: seq<StoreValue>)
    | Exotic(kind: string)

  datatype Unsupported = UnsupportedLoroType

  function LvalToGval(v: LoroValue): Result<GraphValue, Unsupported>
    decreases v, 1
  {
    match v
    case Null => Ok(GNull)
    case Bool(b) => Ok(GBool(b))
    case I64(i) => Ok(Integer(i))
    case Double(f) => Ok(Float(f))
    case String(s) => Ok(GString(s))
    case List(items) =>
      var r := AllToGval(items);
      if r.Ok? then Ok(GList(r.value)) else Err(r.error)
    case Map(m) =>
      if forall k :: k in m ==> LvalToGval(m[k]).Ok?
      then Ok(GMap(map k | k in m :: LvalToGval(m[k]).value))
      else Err(UnsupportedLoroType)
    case Binary(_) => Err(UnsupportedLoroType)
    case Container(_) => Err(UnsupportedLoroType)
  }

  /** Item by item, up to the first failure. */
  function AllToGval(items: seq<LoroValue>): (r: Result<seq<GraphValue>, Unsupported>)
    ensures r.Ok? ==> |r.value| == |items|
    decreases items, 0
  {
    if items == [] then Ok([])
    else
      var first := LvalToGval(items[0]);
      if first.Err? then Err(first.error)
      else
        var rest := AllToGval(items[1..]);
        if rest.Err? then rest else Ok([first.value] + rest.value)
  }

  function GvalToStore(v: GraphValue): StoreValue {
    match v
    case GNull => SNull
    case GBool(b) => SBool(b)
    case Integer(i) => Int64(i)
    case Float(f) => Float64(f)
    case GString(s) => SString(s)
    case Vector(f) => SVector(f)
    case GList(items) => SList(seq(|items|, i requires 0 <= i < |items| => GvalToStore(items[i])))
    case GMap(m) => SMap(map k | k in m :: GvalToStore(m[k]))
  }

  function StoreToLval(v: StoreValue): LoroValue {
    match v
    case SNull => Null
    case SBool(b) => Bool(b)
    case Int64(i) => I64(i)
    case Float64(f) => Double(f)
    case SString(s) => String(s)
    case SList(items) => List(seq(|items|, i requires 0 <= i < |items| => StoreToLval(items[i])))
    case SMap(m) => Map(map k | k in m :: StoreToLval(m[k]))
    case SVector(f) => List(seq(|f|, i requires 0 <= i < |f| => Double(f[i])))
    case Exotic(_) => Null
  }

  /** A binary or container value occurs at some depth. */
  ghost predicate Opaque(v: LoroValue) {
    match v
    case List(items) => exists i :: 0 <= i < |items| && Opaque(items[i])
    case Map(m) => exists k :: k in m && Opaque(m[k])
    case _ => v.Binary? || v.Container?
  }

  lemma {:induction false} AllToGvalItems(items: seq<LoroValue>)
    ensures AllToGval(items).Ok? <==> forall i :: 0 <= i < |items| ==> LvalToGval(items[i]).Ok?
    ensures AllToGval(items).Ok? ==> forall i :: 0 <= i < |items| ==> LvalToGval(items[i]) == Ok(AllToGval(items).value[i])
  {
    if items != [] {
      AllToGvalItems(items[1..]);
      assert items == [items[0]] + items[1..];
    }
  }

  /** Translation fails exactly on values that hold a binary or a container. */
  lemma {:induction false} FailsIffOpaque(v: LoroValue)
    ensures LvalToGval(v).Err? <==> Opaque(v)
  {
    match v
    case List(items) =>
      AllToGvalItems(items);
      forall i | 0 <= i < |items|
        ensures LvalToGval(items[i]).Err? <==> Opaque(items[i])
      {
        FailsIffOpaque(items[i]);
      }
    case Map(m) =>
      forall k | k in m
        ensures LvalToGval(m[k]).Err? <==> Opaque(m[k])
      {
        FailsIffOpaque(m[k]);
      }
    case _ =>
  }

  /** Whatever gets in comes back out unchanged. */
  lemma {:induction false} RoundTrip(v: LoroValue)
    requires !Opaque(v)
    ensures LvalToGval(v).Ok? && StoreToLval(GvalToStore(LvalToGval(v).value)) == v
  {
    FailsIffOpaque(v);
    match v
    case List(items) =>
      AllToGvalItems(items);
      forall i | 0 <= i < |items|
        ensures LvalToGval(items[i]).Ok? && StoreToLval(GvalToStore(LvalToGval(items[i]).value)) == items[i]
      {
        RoundTrip(items[i]);
      }
      assert StoreToLval(GvalToStore(LvalToGval(v).value)).items == items;
    case Map(m) =>
      forall k | k in m
        ensures LvalToGval(m[k]).Ok? && StoreToLval(GvalToStore(LvalToGval(m[k]).value)) == m[k]
      {
        RoundTrip(m[k]);
      }
      assert StoreToLval(GvalToStore(LvalToGval(v).value)).entries == m;
    case _ =>
  }

  /** A vector is stored as one and read back as the list of its numbers, in order. */
  lemma VectorReadsAsList(v: seq<real>)
    ensures GvalToStore(Vector(v)) == SVector(v)
    ensures var r := StoreToLval(SVector(v));
            r.List? && |r.items| == |v| && forall i :: 0 <= i < |v| ==> r.items[i] == Double(v[i])
  {
  }

  /** Null is read back from null and from every exotic value, and from nothing else. */
  lemma NullIff(v: StoreValue)
    ensures StoreToLval(v) == Null <==> v.SNull? || v.Exotic?
  {
  }

  /** Only the shapes that both sides share. */
  ghost predicate JsonShaped(v: StoreValue) {
    match v
    case SList(items) => forall i :: 0 <= i < |items| ==> JsonShaped(items[i])
    case SMap(m) => forall k :: k in m ==> JsonShaped(m[k])
    case _ => !v.SVector? && !v.Exotic?
  }

  /** What the outbound path writes can always be read back by the inbound path. */
  lemma {:induction false} OutboundReadable(v: StoreValue)
    ensures !Opaque(StoreToLval(v))
  {
    match v
    case SList(items) =>
      forall i | 0 <= i < |items| { OutboundReadable(items[i]); }
    case SMap(m) =>
      forall k | k in m { OutboundReadable(m[k]); }
    case _ =>
  }

  /** The way out and back in. */
  ghost function Echoed(v: StoreValue): StoreValue {
    OutboundReadable(v);
    FailsIffOpaque(StoreToLval(v));
    GvalToStore(LvalToGval(StoreToLval(v)).value)
  }

  lemma EchoedList(items: seq<StoreValue>)
    ensures Echoed(SList(items)) == SList(seq(|items|, i requires 0 <= i < |items| => Echoed(items[i])))
  {
    var out := StoreToLval(SList(items));
    OutboundReadable(SList(items));
    FailsIffOpaque(out);
    AllToGvalItems(out.items);
    forall i | 0 <= i < |items|
      ensures Echoed(SList(items)).items[i] == Echoed(items[i])
    {
      assert out.items[i] == StoreToLval(items[i]);
    }
  }

  lemma EchoedMap(m: map<string, StoreValue>)
    ensures Echoed(SMap(m)) == SMap(map k | k in m :: Echoed(m[k]))
  {
    var out := StoreToLval(SMap(m));
    OutboundReadable(SMap(m));
    FailsIffOpaque(out);
    forall k | k in m
      ensures k in Echoed(SMap(m)).entries && Echoed(SMap(m)).entries[k] == Echoed(m[k])
    {
      assert out.entries[k] == StoreToLval(m[k]);
    }
  }

  /** Out and back in is the identity exactly on the shared shapes: a vector comes
      back as a list, an exotic value as null. */
  lemma {:induction false} EchoedIff(v: StoreValue)
    ensures Echoed(v) == v <==> JsonShaped(v)
  {
    match v
    case SList(items) =>
      EchoedList(items);
      forall i | 0 <= i < |items|
        ensures Echoed(items[i]) == items[i] <==> JsonShaped(items[i])
      {
        EchoedIff(items[i]);
      }
      if Echoed(v) == v {
        forall i | 0 <= i < |items|
          ensures Echoed(items[i]) == items[i]
        {
          assert Echoed(v).items[i] == items[i];
        }
      }
    case SMap(m) =>
      EchoedMap(m);
      forall k | k in m
        ensures Echoed(m[k]) == m[k] <==> JsonShaped(m[k])
      {
        EchoedIff(m[k]);
      }
      if Echoed(v) == v {
        forall k | k in m
          ensures Echoed(m[k]) == m[k]
        {
          assert Echoed(v).entries[k] == m[k];
        }
      }
    case SVector(_) =>
      OutboundReadable(v);
      FailsIffOpaque(StoreToLval(v));
      assert Echoed(v).SList?;
    case _ =>
  }
}
