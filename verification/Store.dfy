/**
 The key-value store of src/cloudlink/store.go: a map written out as key-value entries joined by
 semicolons in whatever order the map yields, put into a PEM block and read back in one go, and a list
 of outputs kept under one of its keys.
 */
module KeyStore {
  import opened Bytes
  import opened Text
  import opened Listing
  import opened SwapRemoval

  // ---------- the text of a store ----------

  function Entry(key: string, value: string): string {
    key + "-" + value
  }

  function Entries(data: map<string, string>, order: seq<string>): seq<string> {
    if order == [] then []
    else if order[0] in data then [Entry(order[0], data[order[0]])] + Entries(data, order[1..])
    else Entries(data, order[1..])
  }

  function Serialised(data: map<string, string>, order: seq<string>): string {
    Join(Entries(data, order), ';')
  }

  /** The text: each key, a dash and its value, with semicolons between. */
  lemma TextByEntries(data: map<string, string>, order: seq<string>)
    requires forall k <- order :: k in data
    ensures order == [] ==> Serialised(data, order) == ""
    ensures |order| == 1 ==> Serialised(data, order) == order[0] + "-" + data[order[0]]
    ensures |order| > 1 ==>
      Serialised(data, order) == order[0] + "-" + data[order[0]] + ";" + Serialised(data, order[1..])
  {
    if |order| > 1 {
      assert Entries(data, order)[1..] == Entries(data, order[1..]);
      assert order[1] in data;
    } else if |order| == 1 {
      NoEntries(data);
      assert order[1..] == [];
      assert Entries(data, order) == [Entry(order[0], data[order[0]])];
    }
  }

  /** One part of the text: anything past a second dash is dropped, anything without a dash ignored. */
  function Entered(data: map<string, string>, part: string): map<string, string> {
    var arr := Split(part, '-');
    if |arr| > 1 then data[arr[0] := arr[1]] else data
  }

  function EnteredAll(data: map<string, string>, parts: seq<string>): map<string, string>
    decreases |parts|
  {
    if parts == [] then data else EnteredAll(Entered(data, parts[0]), parts[1..])
  }

  function Loaded(text: string): map<string, string> {
    EnteredAll(map[], Split(text, ';'))
  }

  lemma NoEntries(data: map<string, string>)
    ensures Entries(data, []) == []
  {
  }

  predicate Plain(s: string) {
    '-' !in s && ';' !in s
  }

  predicate PlainAll(data: map<string, string>) {
    forall k <- data :: Plain(k) && Plain(data[k])
  }

  lemma PlainEntry(data: map<string, string>, k: string, v: string)
    requires Plain(k) && Plain(v)
    ensures ';' !in Entry(k, v) && Entered(data, Entry(k, v)) == data[k := v]
  {
    SplitPart(k, v, '-');
    SplitPart(v, "", '-');
    assert k + "-" + v == k + ['-'] + v;
  }

  function Restrict(data: map<string, string>, order: seq<string>): map<string, string> {
    map k | k in data && k in order :: data[k]
  }

  lemma {:induction false} EntriesLoad(data: map<string, string>, order: seq<string>, acc: map<string, string>)
    requires PlainAll(data) && forall k <- order :: k in data
    ensures EnteredAll(acc, Entries(data, order)) == acc + Restrict(data, order)
    ensures forall p <- Entries(data, order) :: ';' !in p
    ensures |Entries(data, order)| == |order|
    decreases |order|
  {
    if order != [] {
      var k := order[0];
      PlainEntry(acc, k, data[k]);
      EntriesLoad(data, order[1..], acc[k := data[k]]);
      assert Entries(data, order)[1..] == Entries(data, order[1..]);
      assert acc[k := data[k]] + Restrict(data, order[1..]) == acc + Restrict(data, order);
    }
  }

  lemma {:induction false} LoadedIsPlain(parts: seq<string>, acc: map<string, string>)
    requires PlainAll(acc) && forall p <- parts :: ';' !in p
    ensures PlainAll(EnteredAll(acc, parts))
    decreases |parts|
  {
    if parts != [] {
      SplitKeepsOut(parts[0], '-', ';');
      LoadedIsPlain(parts[1..], Entered(acc, parts[0]));
    }
  }

  lemma {:induction false} SplitKeepsOut(s: string, c: char, d: char)
    requires d !in s
    ensures forall p <- Split(s, c) :: d !in p
  {
    if s != "" {
      SplitKeepsOut(s[1..], c, d);
    }
  }

  /** In any order of the entries, the text stands for the map exactly when no key or value has a dash or semicolon. */
  lemma TextRoundTripsExactly(data: map<string, string>, order: seq<string>)
    requires Enumerates(order, data.Keys)
    ensures Loaded(Serialised(data, order)) == data
       <==> forall k <- data :: '-' !in k + data[k] && ';' !in k + data[k]
  {
    LoadedIsPlain(Split(Serialised(data, order), ';'), map[]);
    if PlainAll(data) {
      EntriesLoad(data, order, map[]);
      assert map[] + Restrict(data, order) == data;
      if order == [] {
        SplitPart("", "", ';');
        SplitPart("", "", '-');
      } else {
        SplitJoin(Entries(data, order), ';');
      }
    }
  }

  // ---------- the file ----------

  /** What the file starts with: nothing, no whole block, or the block of a text. */
  datatype FileText = Empty | Broken | Block(text: string)

  const READ_SIZE := 512

  /**
   The length of the PEM block of n bytes, of type LMON: begin line, the base64 text in lines of 64, end
   line, each with its newline.
   */
  function PemLength(n: nat): nat {
    var base64 := 4 * ((n + 2) / 3);
    21 + base64 + (base64 + 63) / 64 + 19
  }

  /** The one read takes in the block, its last newline excepted, which decoding can do without. */
  predicate ReadWhole(text: string) {
    PemLength(Utf8Length(text)) <= READ_SIZE + 1
  }

  lemma ReadWholeExactly(text: string)
    ensures ReadWhole(text) <==> Utf8Length(text) <= 348
  {
  }

  /** What Load finds: a map, no text at all, or no block, on which the source faults. */
  datatype Reading = Read(data: map<string, string>) | NoText | NilBlock

  function Reload(file: FileText): Reading {
    match file
    case Empty => NoText
    case Broken => NilBlock
    case Block(text) => if ReadWhole(text) then Read(Loaded(text)) else NilBlock
  }

  /**
   Whatever the order of the entries, a written store is read back exactly when no key or value has a dash
   or semicolon and the text is no longer than 348 bytes.
   */
  lemma StoreRoundTripsExactly(data: map<string, string>, order: seq<string>)
    requires Enumerates(order, data.Keys)
    ensures Reload(Block(Serialised(data, order))) == Read(data)
       <==> (forall k <- data :: '-' !in k + data[k] && ';' !in k + data[k])
            && Utf8Length(Serialised(data, order)) <= 348
  {
    hide Loaded, Serialised, PlainAll, ReadWhole, Enumerates;
    TextRoundTripsExactly(data, order);
    ReadWholeExactly(Serialised(data, order));
  }

  // ---------- the length of the text ----------

  /** The bytes of an entry and of the separator after it. */
  function EntrySize(data: map<string, string>): string -> nat {
    k => if k in data then Utf8Length(k) + Utf8Length(data[k]) + 2 else 0
  }

  lemma {:induction false} TextLength(data: map<string, string>, order: seq<string>)
    requires forall k <- order :: k in data
    ensures Utf8Length(Serialised(data, order)) + (if order == [] then 0 else 1) == Total(EntrySize(data), order)
  {
    if order != [] {
      var k := order[0];
      TextLength(data, order[1..]);
      EntryLength(k, data[k]);
      assert Entries(data, order)[1..] == Entries(data, order[1..]);
      if |order| > 1 {
        var e, rest := Entry(k, data[k]), Serialised(data, order[1..]);
        assert |Entries(data, order[1..])| > 0 by { assert order[1] in order; }
        Utf8Concat(e + [';'], rest);
        Utf8Concat(e, ";");
        SemicolonLength();
      }
    }
  }

  lemma EntryLength(k: string, v: string)
    ensures Utf8Length(Entry(k, v)) == Utf8Length(k) + Utf8Length(v) + 1
  {
    Utf8Concat(k + "-", v);
    Utf8Concat(k, "-");
    assert "-"[1..] == "";
  }

  lemma SemicolonLength()
    ensures Utf8Length(";") == 1
  {
    assert ";"[1..] == "";
  }

  /** The length does not depend on the order the map yields, so neither does whether the store is read back. */
  lemma LengthIsOrderFree(data: map<string, string>, a: seq<string>, b: seq<string>)
    requires Enumerates(a, data.Keys) && Enumerates(b, data.Keys)
    ensures Utf8Length(Serialised(data, a)) == Utf8Length(Serialised(data, b))
  {
    hide Serialised;
    TextLength(data, a);
    TextLength(data, b);
    TotalIsOrderFree(EntrySize(data), a, b, data.Keys);
  }

  /** One output of 342 bytes, alone in the store, is already too long: the next start faults. */
  lemma LongOutputUnreadable(name: string)
    requires Utf8Length(name) >= 342
    ensures Enumerates([OUTPUT], map[OUTPUT := name].Keys)
    ensures Reload(Block(Serialised(map[OUTPUT := name], [OUTPUT]))) == NilBlock
  {
    var data := map[OUTPUT := name];
    assert [OUTPUT][1..] == [];
    TextLength(data, [OUTPUT]);
    ReadWholeExactly(Serialised(data, [OUTPUT]));
  }

  // ---------- the list of outputs ----------

  const OUTPUT := "output"

  /** The list as the store's text holds it; the empty text is the empty list. */
  function OutputsIn(text: string): (arr: seq<string>)
    ensures forall p <- arr :: ',' !in p
  {
    if text == "" then [] else Split(text, ',')
  }

  function Outputs(data: map<string, string>): (arr: seq<string>)
    ensures forall p <- arr :: ',' !in p
  {
    if OUTPUT in data then OutputsIn(data[OUTPUT]) else []
  }

  /** A list survives its text exactly when no name has a comma and it is not the lone empty name. */
  lemma OutputsSurviveExactly(arr: seq<string>)
    ensures OutputsIn(Join(arr, ',')) == arr <==> arr != [""] && forall p <- arr :: ',' !in p
  {
    if arr == [] || arr == [""] {
      assert Join(arr, ',') == "";
    } else {
      SplitJoinExactly(arr, ',');
      SplitPart("", "", ',');
    }
  }

  /** Adding a new name keeps the list a set exactly when the name can be told apart in the text. */
  lemma AddedOutputs(text: string, name: string)
    requires Distinct(OutputsIn(text)) && name !in OutputsIn(text)
    ensures Distinct(OutputsIn(text) + [name])
    ensures OutputsIn(Join(OutputsIn(text) + [name], ',')) == OutputsIn(text) + [name]
       <==> ',' !in name && (OutputsIn(text) == [] ==> name != "")
  {
    var arr := OutputsIn(text) + [name];
    OutputsSurviveExactly(arr);
    assert arr[|arr| - 1] == name;
    assert arr == [""] <==> OutputsIn(text) == [] && name == "";
  }

  /** What a deletion leaves is read back exactly when it is not the lone empty name. */
  lemma DeletedOutputs(text: string, name: string)
    requires Sweep(OutputsIn(text), name).Some?
    ensures var left := Sweep(OutputsIn(text), name).value;
            OutputsIn(Join(left, ',')) == left <==> left != [""]
  {
    var names := OutputsIn(text);
    var left := Sweep(names, name).value;
    SweepExactly(names, name);
    forall p <- left ensures ',' !in p {
      assert p in multiset(left);
      assert p in multiset(names);
    }
    OutputsSurviveExactly(left);
  }

  /** Two additions to an empty list lead to one on which a deletion faults: a name with a comma reads back as two. */
  lemma AdditionsCanDuplicate()
    ensures OutputsIn(Join([] + ["a"], ',')) == ["a"] && "b,a" !in ["a"]
    ensures OutputsIn(Join(["a"] + ["b,a"], ',')) == ["a", "b", "a"] && RunsOff(["a", "b", "a"], "a")
  {
    OutputsSurviveExactly(["a"]);
    OutputsSurviveExactly(["a", "b", "a"]);
    assert Join(["a"] + ["b,a"], ',') == "a,b,a" == Join(["a", "b", "a"], ',');
    var s := ["a", "b", "a"];
    assert s[..2] == ["a"] + ["b"];
    assert multiset(s[..2])["a"] == 1;
    assert Beyond(s, "a", 2);
  }

  // ---------- the store ----------

  /** How a write ends: done; the file could not be opened; or cut off, leaving the file with this content. */
  datatype Write = Written | Unopened | CutOff(left: FileText)

  datatype Deleted = Done(write: Write) | NoOutputs | IndexFault

  class Store {
    var data: map<string, string>
    var file: FileText

    constructor ()
      ensures data == map[] && file == Empty
    {
      data, file := map[], Empty;
    }

    /** The entries in the order in which the map yields its keys. */
    method Rehash() returns (order: seq<string>, text: string)
      ensures Enumerates(order, data.Keys) && text == Serialised(data, order)
    {
      hide Enumerates, Entries, Entry;
      var strArray := [];
      order := [];
      NoEntries(data);
      NoneListed<string>();
      var left := data.Keys;
      ghost var seen := {};
      while left != {}
        invariant data.Keys == left + seen && left !! seen
        invariant Enumerates(order, seen) && strArray == Entries(data, order)
        decreases |left|
      {
        var k :| k in left;
        left := left - {k};
        strArray := strArray + [Entry(k, data[k])];
        EntriesSnoc(data, order, k);
        OneMoreListed(order, seen, k);
        order := order + [k];
        seen := seen + {k};
      }
      text := Join(strArray, ';');
    }

    /** A write that is cut off takes the name out of memory, whether or not it was there before. */
    method Set(name: string, value: string, write: Write) returns (ghost order: seq<string>)
      modifies this
      ensures data == Assigned(old(data), name, value, write)
      ensures write.Unopened? ==> file == old(file)
      ensures write.Written? ==> Enumerates(order, data.Keys) && file == Block(Serialised(data, order))
      ensures write.CutOff? ==> file == write.left
    {
      order := [];
      if write.Unopened? {
        return;
      }
      data := data[name := value];
      var text;
      order, text := Rehash();
      if write.CutOff? {
        file := write.left;
        data := data - {name};
      } else {
        file := Block(text);
      }
    }

    /** `created`: the file could be made anew. */
    method Del(created: bool) returns (ok: bool)
      modifies this
      ensures ok == created && data == map[]
      ensures file == if created then Empty else old(file)
    {
      data := map[];
      if created {
        file := Empty;
      }
      ok := created;
    }

    /** One read of 512 bytes. */
    method Load() returns (r: Reading)
      modifies this`data
      ensures r == Reload(file)
      ensures data == if r.Read? then r.data else old(data)
    {
      hide ReadWhole;
      if file.Empty? {
        return NoText;
      }
      if file.Broken? || !ReadWhole(file.text) {
        return NilBlock;
      }
      var vals := Split(file.text, ';');
      data := map[];
      for i := 0 to |vals|
        invariant EnteredAll(data, vals[i..]) == Loaded(file.text)
      {
        var arr := Split(vals[i], '-');
        if |arr| > 1 {
          data := data[arr[0] := arr[1]];
        }
      }
      r := Read(data);
    }

    function Value(name: string): string
      reads this
    {
      if name in data then data[name] else ""
    }

    method Get(name: string) returns (value: string)
      ensures value == Value(name)
    {
      value := if name in data then data[name] else "";
    }

    method GetOutput() returns (arr: seq<string>)
      ensures arr == Outputs(data) == if "output" in data then OutputsIn(data["output"]) else []
    {
      var str := Get(OUTPUT);
      arr := if str != "" then Split(str, ',') else [];
    }

    method SetOutput(value: string, write: Write)
      modifies this
      ensures data == if value in Outputs(old(data)) then old(data)
                      else Assigned(old(data), "output", Join(Outputs(old(data)) + [value], ','), write)
    {
      var arr := GetOutput();
      if value !in arr {
        var _ := Set(OUTPUT, Join(arr + [value], ','), write);
      }
    }

    /** The swap runs in place while the loop still goes over the old length. */
    method DelOutput(name: string, write: Write) returns (r: Deleted)
      modifies this
      ensures r == NoOutputs <==> Outputs(old(data)) == []
      ensures r == IndexFault <==> RunsOff(Outputs(old(data)), name)
      ensures !r.Done? ==> data == old(data) && file == old(file)
      ensures r.Done? ==>
        && Sweep(Outputs(old(data)), name).Some?
        && data == Assigned(old(data), "output", Join(Sweep(Outputs(old(data)), name).value, ','), write)
    {
      var str := Get(OUTPUT);
      if str == "" {
        return NoOutputs;
      }
      var names := Split(str, ',');
      SweepExactly(names, name);
      var swept := SweepInPlace(names, name);
      if swept.None? {
        return IndexFault;
      }
      var _ := Set(OUTPUT, Join(swept.value, ','), write);
      r := Done(write);
    }
  }

  /** The map after a write of one name. */
  function Assigned(data: map<string, string>, name: string, value: string, write: Write): map<string, string> {
    match write
    case Written => data[name := value]
    case Unopened => data
    case CutOff(_) => data - {name}
  }

  method SweepInPlace(names: seq<string>, name: string) returns (swept: Option<seq<string>>)
    ensures swept == Sweep(names, name)
  {
    var n := |names|;
    var arr := new string[n](i requires 0 <= i < n => names[i]);
    assert arr[..] == names;
    var len := n;
    for i := 0 to n
      invariant 0 <= len <= n
      invariant SweepFrom(arr[..], len, name, i) == Sweep(names, name)
    {
      if arr[i] == name {
        if i >= len {
          return None;
        }
        arr[i] := arr[len - 1];
        len := len - 1;
      }
    }
    swept := Some(arr[..len]);
  }

  lemma {:induction false} EntriesSnoc(data: map<string, string>, order: seq<string>, k: string)
    requires k in data
    ensures Entries(data, order + [k]) == Entries(data, order) + [Entry(k, data[k])]
  {
    if order == [] {
      assert [k][1..] == [];
    } else {
      assert (order + [k])[1..] == order[1..] + [k];
      EntriesSnoc(data, order[1..], k);
    }
  }
}
