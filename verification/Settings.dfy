/** The settings database: a map of strings, and the file it is written to and loaded from. */
module Settings {
  import opened Bytes
  import opened Text

  type Value = seq<byte>

  /** The key of Format. */
  const KEY: seq<byte> :=
    [0x6F, 0x64, 0x58, 0x60, 0x60, 0x4D, 0x4A, 0x5D, 0x66, 0x49, 0x59, 0x5F, 0x65, 0x2C, 0x71, 0x4A] +
    [0x37, 0x4C, 0x4E, 0x2F, 0x23, 0x38, 0x7A, 0x37, 0x2A, 0x71, 0x77, 0x39, 0x66, 0x78, 0x46, 0x7C] +
    [0x6F, 0x4F, 0x62, 0x7B, 0x5A, 0x56, 0x51, 0x7A, 0x50, 0x61, 0x3B, 0x54, 0x24, 0x5E, 0x68, 0x68] +
    [0x4B, 0x24, 0x39, 0x36, 0x45, 0x23, 0x4C, 0x49, 0x4E, 0x34, 0x71, 0x38, 0x28, 0x32, 0x56]

  lemma KeyLength()
    ensures |KEY| == 63
  {}

  // ----- one value

  function Power2(n: nat): (p: nat) { if n == 0 then 1 else 2 * Power2(n - 1) }

  /** Exclusive or of the low `n` bits. */
  function XorBits(a: nat, b: nat, n: nat): (c: nat)
    ensures c < Power2(n)
    decreases n
  {
    if n == 0 then 0 else (if a % 2 == b % 2 then 0 else 1) + 2 * XorBits(a / 2, b / 2, n - 1)
  }

  lemma {:induction false} XorBitsTwice(a: nat, k: nat, n: nat)
    requires a < Power2(n)
    ensures XorBits(XorBits(a, k, n), k, n) == a
    decreases n
  {
    if n > 0 {
      XorBitsTwice(a / 2, k / 2, n - 1);
      var c := XorBits(a, k, n);
      assert c / 2 == XorBits(a / 2, k / 2, n - 1) && (c % 2 == 0 <==> a % 2 == k % 2);
    }
  }

  lemma {:induction false} XorBitsZero(k: nat, n: nat)
    requires k < Power2(n)
    ensures XorBits(0, k, n) == k
    decreases n
  {
    if n > 0 { XorBitsZero(k / 2, n - 1); }
  }

  function Xor(a: byte, b: byte): (c: byte) {
    EightBits();
    XorBits(a, b, 8)
  }

  lemma EightBits()
    ensures Power2(8) == 256
  {
    assert Power2(4) == 16;
  }

  lemma XorTwice(a: byte, k: byte)
    ensures Xor(Xor(a, k), k) == a && Xor(0, k) == k
  {
    hide XorBits, Power2;
    EightBits();
    XorBitsTwice(a, k, 8);
    XorBitsZero(k, 8);
  }

  function KeyAt(i: nat): (k: byte) {
    KeyLength();
    KEY[i % 63]
  }

  /** Exclusive-or with the repeated key. */
  function Formatted(s: Value): (r: Value)
    ensures |r| == |s| && forall i :: 0 <= i < |s| ==> r[i] == Xor(s[i], KeyAt(i))
  {
    seq(|s|, i requires 0 <= i < |s| => Xor(s[i], KeyAt(i)))
  }

  method Format(s: Value) returns (r: Value)
    ensures r == Formatted(s)
  {
    hide KeyAt, Xor;
    r := s;
    for i := 0 to |r|
      invariant |r| == |s|
      invariant forall k :: 0 <= k < i ==> r[k] == Xor(s[k], KeyAt(k))
      invariant forall k :: i <= k < |s| ==> r[k] == s[k]
    {
      r := r[i := Xor(r[i], KeyAt(i))];
    }
  }

  /** Encryption and decryption are the same. */
  lemma FormatTwice(s: Value)
    ensures Formatted(Formatted(s)) == s
  {
    hide KeyAt, Xor;
    forall i | 0 <= i < |s| ensures Formatted(Formatted(s))[i] == s[i] { XorTwice(s[i], KeyAt(i)); }
  }

  /** WriteValue: the length with the closing NUL, the encrypted string, the NUL itself. */
  function Record(v: Value): (s: seq<byte>) {
    SizeBytes(|v| + 1) + Formatted(v) + [0]
  }

  /** Short reads leave zeros; they are not failures. */
  function Padded(s: seq<byte>, n: nat): (r: Value)
    ensures |r| == n
  {
    if |s| >= n then s[..n] else s + seq(n - |s|, _ => 0)
  }

  /** ReadValue: the value, without its last character if it has more than one. */
  function Read(file: seq<byte>): (r: Option<(Value, seq<byte>)>)
    ensures r.Some? ==> |r.value.1| < |file|
  {
    if |file| < 8 then None
    else
      var n := ReadSize(file, 0);
      var data := Formatted(Padded(file[8..], n));
      Some((if n > 1 then data[..n - 1] else data, if n > |file| - 8 then [] else file[8 + n..]))
  }

  /** What reading gives back: the value itself, except that an empty one becomes "o". */
  function Seen(v: Value): (r: Value)
    ensures r != []
  {
    if v == [] then [KeyAt(0)] else v
  }

  lemma ReadsRecord(v: Value, after: seq<byte>)
    requires |v| + 1 < TWO_64
    ensures Read(Record(v) + after) == Some((Seen(v), after))
  {
    hide KeyAt, Xor, SizeBytes, ReadSize;
    var file := Record(v) + after;
    var n := |v| + 1;
    assert file[0..0 + 8] == SizeBytes(n);
    ReadSizeBack(n, file, 0);
    assert file[8..] == Formatted(v) + [0] + after;
    var stored := Formatted(v) + [0];
    assert Padded(file[8..], n) == stored;
    assert file[8 + n..] == after;
    var data := Formatted(stored);
    forall i | 0 <= i < |v| ensures data[i] == v[i] { XorTwice(v[i], KeyAt(i)); }
    if v == [] {
      XorTwice(0, KeyAt(0));
      assert data == [KeyAt(0)];
    } else {
      assert data[..|v|] == v;
    }
  }

  // ----- the file

  datatype Item = Item(key: Value, value: Value)

  function Records(items: seq<Item>): (s: seq<byte>) {
    if items == [] then [] else Record(items[0].key) + (Record(items[0].value) + Records(items[1..]))
  }

  function Chars(s: string): (v: Value)
    requires forall k :: 0 <= k < |s| ==> IsDigit(s[k])
    ensures |v| == |s|
  {
    seq(|s|, i requires 0 <= i < |s| => DigitOctet(s[i]))
  }

  function DigitOctet(c: char): (b: byte)
    requires IsDigit(c)
  {
    0x30 + DigitValue(c)
  }

  /** PTERODON_DATABASE_VERSION */
  const VERSION: Value := [0x32]

  /** Serialize: the version, the number of variables, then every variable. */
  function FileOf(items: seq<Item>): (s: seq<byte>) {
    Record(VERSION) + (Record(Chars(Decimal(|items|))) + Records(items))
  }

  /** Framework::is_numeric: every character is at most '9', also one below '0'. */
  predicate IsNumeric(v: Value) {
    v != [] && forall k :: 0 <= k < |v| ==> v[k] <= 0x39
  }

  type Data = map<Value, Value>

  /** The loop of Unserialize over the variables: it ends where nothing more can be read. */
  function LoadItems(data: Data, file: seq<byte>): (r: Data)
    decreases |file|
  {
    match Read(file)
    case None => data
    case Some((key, rest)) =>
      match Read(rest)
      case None => data
      case Some((value, rest')) => LoadItems(data[key := value], rest')
  }

  /** Unserialize: whether it reports success, and the variables. */
  function Load(data: Data, file: seq<byte>, checkVersion: bool): (r: (bool, Data)) {
    match Read(file)
    case None => (true, data)
    case Some((version, rest)) =>
      if !IsNumeric(version) || (checkVersion && version != VERSION) then (false, data)
      else match Read(rest)
        case None => (true, data)
        case Some((size, rest')) => if !IsNumeric(size) then (false, data) else (true, LoadItems(data, rest'))
  }

  // ----- loading what was written

  /** Setting the variables one after the other. */
  function SetAll(data: Data, items: seq<Item>): (r: Data)
    decreases |items|
  {
    if items == [] then data else SetAll(data[Seen(items[0].key) := Seen(items[0].value)], items[1..])
  }

  predicate Short(items: seq<Item>) {
    forall k :: 0 <= k < |items| ==> |items[k].key| + 1 < TWO_64 && |items[k].value| + 1 < TWO_64
  }

  /** Fewer than eight bytes at the end are ignored, and so is a key without a value. */
  lemma {:induction false} LoadsItems(data: Data, items: seq<Item>, key: Option<Value>, tail: seq<byte>)
    requires Short(items) && |tail| < 8 && (key.Some? ==> |key.value| + 1 < TWO_64)
    ensures var end := if key.Some? then Record(key.value) + tail else tail;
            LoadItems(data, Records(items) + end) == SetAll(data, items)
    decreases |items|
  {
    hide Record, Seen;
    var end := if key.Some? then Record(key.value) + tail else tail;
    if items == [] {
      assert Records(items) + end == end;
      if key.Some? { ReadsRecord(key.value, tail); }
    } else {
      hide Read;
      var rest := Records(items[1..]) + end;
      assert Records(items) + end == Record(items[0].key) + (Record(items[0].value) + rest);
      ReadsRecord(items[0].key, Record(items[0].value) + rest);
      ReadsRecord(items[0].value, rest);
      LoadsItems(data[Seen(items[0].key) := Seen(items[0].value)], items[1..], key, tail);
    }
  }

  /** Not empty, and no character above '9'. */
  ghost predicate LooksNumeric(v: Value) { v != [] && forall c :: c in v ==> c <= 0x39 }

  /**
   * A file of records, with whatever version and size: it is refused, and nothing is loaded, exactly
   * when one of the two is not numeric, or the version is checked and is not "2".
   */
  lemma LoadsRecords(data: Data, version: Value, size: Value, items: seq<Item>, tail: seq<byte>, checkVersion: bool)
    requires Short(items) && |version| + 1 < TWO_64 && |size| + 1 < TWO_64 && |tail| < 8
    ensures Load(data, Record(version) + (Record(size) + (Records(items) + tail)), checkVersion) ==
            if !LooksNumeric(version) || (checkVersion && version != [0x32]) || !LooksNumeric(size) then (false, data)
            else (true, SetAll(data, items))
  {
    hide Record, Records, Read, LoadItems, SetAll;
    var rest := Records(items) + tail;
    ReadsRecord(version, Record(size) + rest);
    ReadsRecord(size, rest);
    assert IsNumeric(Seen(version)) <==> LooksNumeric(version) by { SeenIsNumeric(version); }
    assert IsNumeric(Seen(size)) <==> LooksNumeric(size) by { SeenIsNumeric(size); }
    LoadsItems(data, items, None, tail);
  }

  /** Whatever follows it, a first value that is not numeric, or is another version when that is checked, is refused. */
  lemma OtherVersionIsRefused(data: Data, version: Value, rest: seq<byte>, checkVersion: bool)
    requires |version| + 1 < TWO_64
    ensures !LooksNumeric(version) || (checkVersion && version != [0x32]) ==>
              Load(data, Record(version) + rest, checkVersion) == (false, data)
  {
    hide Record, LoadItems;
    ReadsRecord(version, rest);
    SeenIsNumeric(version);
  }

  lemma SeenIsNumeric(v: Value)
    ensures IsNumeric(Seen(v)) <==> LooksNumeric(v)
    ensures Seen(v) == if v == [] then [0x6F] else v
  {
    assert KeyAt(0) == KEY[0] == 0x6F by { KeyLength(); }
    hide KeyAt;
    var r := Seen(v);
    assert IsNumeric(r) ==> forall c :: c in r ==> c <= 0x39;
    assert forall k :: 0 <= k < |r| ==> r[k] in r;
  }

  /** A file that ends inside its version or its size is accepted as it is, and nothing is loaded. */
  lemma ShortFileLoadsNothing(data: Data, version: Value, tail: seq<byte>, checkVersion: bool)
    requires |version| + 1 < TWO_64 && |tail| < 8
    ensures Load(data, tail, checkVersion) == (true, data)
    ensures Load(data, Record(version) + tail, checkVersion) ==
            (LooksNumeric(version) && (checkVersion ==> version == [0x32]), data)
  {
    hide Record;
    ReadsRecord(version, tail);
    SeenIsNumeric(version);
  }

  lemma DigitsAreNumeric(s: string)
    requires s != "" && forall k :: 0 <= k < |s| ==> IsDigit(s[k])
    ensures IsNumeric(Chars(s)) && LooksNumeric(Chars(s))
  {
    forall k | 0 <= k < |s| ensures Chars(s)[k] <= 0x39 { assert IsDigit(s[k]); }
  }

  /** Loading a written file sets every variable that was written. */
  lemma LoadsFile(data: Data, items: seq<Item>, checkVersion: bool)
    requires Short(items) && |Decimal(|items|)| + 1 < TWO_64
    ensures Load(data, FileOf(items), checkVersion) == (true, SetAll(data, items))
  {
    hide Record, Records, Load, Decimal, SetAll, Chars;
    var size := Chars(Decimal(|items|));
    assert Records(items) + [] == Records(items);
    assert LooksNumeric(size) by { DigitsAreNumeric(Decimal(|items|)); }
    LoadsRecords(data, VERSION, size, items, [], checkVersion);
  }

  // ----- any iteration order

  /** The items are the entries of the map, each once, in any order. */
  ghost predicate Enumerates(items: seq<Item>, data: Data) {
    && (forall i, j :: 0 <= i < j < |items| ==> items[i].key != items[j].key)
    && (forall k :: 0 <= k < |items| ==> items[k].key in data && data[items[k].key] == items[k].value)
    && (forall x :: x in data ==> exists k :: 0 <= k < |items| && items[k].key == x)
  }

  ghost predicate NoEmpty(data: Data) {
    forall x :: x in data ==> x != [] && data[x] != []
  }

  lemma {:induction false} SetAllOverrides(before: Data, items: seq<Item>, data: Data)
    requires Enumerates(items, data) && NoEmpty(data)
    ensures SetAll(before, items) == before + data
    decreases |items|
  {
    if items == [] {
      assert data.Keys == {} by { NothingEnumerated(data); }
      assert before + data == before;
    } else {
      var first, rest := items[0], items[1..];
      EnumeratesTail(items, data);
      var less := data - {first.key};
      assert first.key in data && data[first.key] == first.value by { FirstItem(items, data); }
      hide Enumerates;
      SetAllOverrides(before[first.key := first.value], rest, less);
      OverrideOne(before, data, first.key);
    }
  }

  lemma NothingEnumerated(data: Data)
    requires Enumerates([], data)
    ensures data.Keys == {}
  {
    assert forall x :: x !in data;
  }

  lemma FirstItem(items: seq<Item>, data: Data)
    requires Enumerates(items, data) && items != []
    ensures items[0].key in data && data[items[0].key] == items[0].value
  {}

  lemma EnumeratesTail(items: seq<Item>, data: Data)
    requires Enumerates(items, data) && items != []
    ensures Enumerates(items[1..], data - {items[0].key})
  {
    var first, rest, less := items[0], items[1..], data - {items[0].key};
    forall i, j | 0 <= i < j < |rest| ensures rest[i].key != rest[j].key {
      assert items[i + 1].key != items[j + 1].key;
    }
    forall k | 0 <= k < |rest| ensures rest[k].key in less && less[rest[k].key] == rest[k].value {
      assert rest[k] == items[k + 1] && items[0].key != items[k + 1].key;
    }
    forall x | x in less ensures exists k :: 0 <= k < |rest| && rest[k].key == x {
      var k :| 0 <= k < |items| && items[k].key == x;
      assert rest[k - 1].key == x;
    }
  }

  lemma OverrideOne(before: Data, data: Data, key: Value)
    requires key in data
    ensures before[key := data[key]] + (data - {key}) == before + data
  {
    var l, r := before[key := data[key]] + (data - {key}), before + data;
    assert l.Keys == r.Keys;
    forall x | x in l ensures l[x] == r[x] {}
  }

  /**
   * However the map is iterated when it is written, loading the file gives the old contents
   * overridden by the map.
   */
  lemma LoadOverrides(before: Data, items: seq<Item>, data: Data, checkVersion: bool)
    requires Enumerates(items, data) && NoEmpty(data) && Short(items) && |Decimal(|items|)| + 1 < TWO_64
    ensures Load(before, FileOf(items), checkVersion) == (true, before + data)
  {
    hide Load, FileOf, Short, Enumerates, Decimal;
    LoadsFile(before, items, checkVersion);
    SetAllOverrides(before, items, data);
  }

  lemma {:induction false} SetAllIsNotEmpty(before: Data, items: seq<Item>)
    requires NoEmpty(before)
    ensures NoEmpty(SetAll(before, items))
    decreases |items|
  {
    hide Seen;
    if items != [] {
      SetAllIsNotEmpty(before[Seen(items[0].key) := Seen(items[0].value)], items[1..]);
    }
  }

  /** An empty database loads back the map that was written if and only if it holds no empty string. */
  lemma RoundTripIff(items: seq<Item>, data: Data, checkVersion: bool)
    requires Enumerates(items, data) && Short(items) && |Decimal(|items|)| + 1 < TWO_64
    ensures Load(map[], FileOf(items), checkVersion) == (true, data) <==> NoEmpty(data)
  {
    hide Load, FileOf, Short, Enumerates, Decimal, SetAll;
    LoadsFile(map[], items, checkVersion);
    SetAllIsNotEmpty(map[], items);
    if NoEmpty(data) {
      SetAllOverrides(map[], items, data);
      assert map[] + data == data;
    }
  }

  // ----- the code

  class DataBase {
    var data: Data

    constructor ()
      ensures data == map[]
    {
      data := map[];
    }

    /** emplace(): an existing variable is not touched. */
    method NewVar(name: Value, value: Value)
      modifies this
      ensures data == if name in old(data) then old(data) else old(data)[name := value]
    {
      if name !in data { data := data[name := value]; }
    }

    method SetVar(name: Value, value: Value)
      modifies this
      ensures data == old(data)[name := value]
    {
      if name !in data {
        NewVar(name, value);
      } else {
        data := data[name := value];
      }
    }

    /** Append a record to what has been written so far. */
    method WriteValue(file: seq<byte>, value: Value) returns (file': seq<byte>)
      ensures file' == file + Record(value)
    {
      hide SizeBytes;
      var length := |value| + 1;
      var out := Format(value);
      file' := file + SizeBytes(length);
      file' := file' + (out + [0]);
      assert file' == file + (SizeBytes(length) + out + [0]);
    }

    /** Serialize; `items` is the order in which the map is iterated. */
    method Serialize(items: seq<Item>) returns (file: seq<byte>)
      requires Enumerates(items, data)
      ensures file == FileOf(items)
    {
      hide Record, Enumerates, Decimal, Chars;
      file := WriteValue([], VERSION);
      file := WriteValue(file, Chars(Decimal(|items|)));
      assert items[0..] == items;
      assert file + Records(items[0..]) == FileOf(items);
      for k := 0 to |items|
        invariant file + Records(items[k..]) == FileOf(items)
      {
        ghost var before, rest := file, Records(items[k + 1..]);
        assert items[k..][0] == items[k] && items[k..][1..] == items[k + 1..];
        file := WriteValue(file, items[k].key);
        ghost var middle := file;
        file := WriteValue(file, items[k].value);
        ConcatAssoc(before, Record(items[k].key), Record(items[k].value) + rest);
        ConcatAssoc(middle, Record(items[k].value), rest);
      }
      assert items[|items|..] == [];
    }

    /** ReadValue at `pos`; the string is as long as the length field says. */
    method ReadValue(file: seq<byte>, pos: nat) returns (r: Option<Value>, next: nat)
      requires pos <= |file|
      ensures pos <= next <= |file|
      ensures match Read(file[pos..])
              case None => r.None?
              case Some((value, rest)) => r == Some(value) && rest == file[next..] && pos < next
    {
      hide ReadSize, SizeBytes, Formatted, KeyAt;
      next := pos;
      if |file| - pos < 8 { return None, pos; }
      var length := ReadSize(file, pos);
      assert length == ReadSize(file[pos..], 0) by { SameSizeField(file, pos); }
      assert file[pos..][8..] == file[pos + 8..];
      var value := Padded(file[pos + 8..], length);
      next := if length > |file| - pos - 8 then |file| else pos + 8 + length;
      assert length <= |file| - pos - 8 ==> file[pos..][8 + length..] == file[next..];
      value := Format(value);
      if length > 1 { value := value[..length - 1]; }
      return Some(value), next;
    }

    /** Unserialize: the version, the number of variables, then variables up to the end of the file. */
    method Unserialize(file: seq<byte>, checkVersion: bool) returns (ok: bool)
      modifies this
      ensures (ok, data) == Load(old(data), file, checkVersion)
    {
      hide Read, IsNumeric;
      assert file[0..] == file;
      var version, pos := ReadValue(file, 0);
      if version.None? { return true; }
      if !IsNumeric(version.value) { return false; }
      if checkVersion && version.value != VERSION { return false; }
      var size;
      size, pos := ReadValue(file, pos);
      if size.None? { return true; }
      if !IsNumeric(size.value) { return false; }
      while true
        invariant pos <= |file|
        invariant Load(old(data), file, checkVersion) == (true, LoadItems(data, file[pos..]))
        decreases |file| - pos
      {
        var key, value;
        key, pos := ReadValue(file, pos);
        if key.None? { return true; }
        value, pos := ReadValue(file, pos);
        if value.None? { return true; }
        SetVar(key.value, value.value);
      }
    }

    method Contains(name: Value, value: Value) returns (yes: bool)
      ensures yes <==> name in data && data[name] == value
    {
      return name in data && data[name] == value;
    }

    /** operator==; `items` is the order in which the other map is iterated. */
    method Equals(other: DataBase, items: seq<Item>) returns (yes: bool)
      requires Enumerates(items, other.data)
      ensures yes <==> data == other.data
    {
      if |data| != |other.data| { return false; }
      for k := 0 to |items|
        invariant forall j :: 0 <= j < k ==> items[j].key in data && data[items[j].key] == items[j].value
      {
        var found := Contains(items[k].key, items[k].value);
        if !found { return false; }
      }
      SameSize(data, other.data, items);
      return true;
    }
  }

  lemma SameSizeField(file: seq<byte>, pos: nat)
    requires pos + 8 <= |file|
    ensures ReadSize(file, pos) == ReadSize(file[pos..], 0)
  {
    hide FromLittleEndian;
    assert file[pos..][0..0 + 8] == file[pos..pos + 8];
  }

  /** A map of the same size that has all the entries is the same map. */
  lemma SameSize(a: Data, b: Data, items: seq<Item>)
    requires Enumerates(items, b) && |a| == |b|
    requires forall j :: 0 <= j < |items| ==> items[j].key in a && a[items[j].key] == items[j].value
    ensures a == b
  {
    forall x | x in b ensures x in a && a[x] == b[x] {
      var k :| 0 <= k < |items| && items[k].key == x;
    }
    assert b.Keys <= a.Keys;
    SameKeys(b.Keys, a.Keys);
  }

  lemma SameKeys(x: set<Value>, y: set<Value>)
    requires x <= y && |x| == |y|
    ensures x == y
  {
    assert |y - x| == |y| - |x|;
  }
}
