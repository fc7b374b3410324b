/** The static table of HPACK (appendix A of RFC 7541) and the lookup in it. */
module StaticTable {
  import opened Words
  import opened Outcomes
  import opened DynamicTables

  /** Some entry has the name. */
  predicate HasName(st: seq<Entry>, name: seq<Byte>) {
    exists i :: 0 <= i < |st| && st[i].name == name
  }

  /** Entries of equal names are neighbours. */
  ghost predicate Grouped(st: seq<Entry>) {
    forall i, j, k :: 0 <= i < j < k < |st| && st[i].name == st[k].name ==> st[i].name == st[j].name
  }

  /** The first entry of the name. */
  function NameStart(st: seq<Entry>, name: seq<Byte>, i: nat): (r: Option<nat>)
    requires i <= |st|
    ensures r.Some? ==> i <= r.value < |st| && st[r.value].name == name
    ensures forall k :: i <= k < (if r.Some? then r.value else |st|) ==> st[k].name != name
    decreases |st| - i
  {
    if i == |st| then None
    else if st[i].name == name then Some(i)
    else NameStart(st, name, i + 1)
  }

  /** The end of the run of entries that share the name of the one at `i`. */
  function RunEnd(st: seq<Entry>, i: nat): (end: nat)
    requires i < |st|
    ensures i < end <= |st|
    ensures forall k :: i <= k < end ==> st[k].name == st[i].name
    ensures end < |st| ==> st[end].name != st[i].name
    decreases |st| - i
  {
    if i + 1 < |st| && st[i + 1].name == st[i].name then RunEnd(st, i + 1) else i + 1
  }

  function FindValue(st: seq<Entry>, value: seq<Byte>, i: nat, end: nat): (r: Option<nat>)
    requires i <= end <= |st|
    ensures r.Some? ==> i <= r.value < end && st[r.value].value == value
    ensures r.None? ==> forall k :: i <= k < end ==> st[k].value != value
    decreases end - i
  {
    if i == end then None
    else if st[i].value == value then Some(i)
    else FindValue(st, value, i + 1, end)
  }

  /** The 1-based index of the pair, or else of the name, and whether the value was found too. */
  function FieldIndex(st: seq<Entry>, name: seq<Byte>, value: seq<Byte>): (r: (int, bool))
    ensures r.0 == -1 <==> !HasName(st, name)
    ensures r.0 == -1 ==> !r.1
    ensures r.0 != -1 ==> 1 <= r.0 <= |st| && st[r.0 - 1].name == name
    ensures r.1 ==> st[r.0 - 1].value == value
  {
    match NameStart(st, name, 0)
    case None => (-1, false)
    case Some(start) =>
      match FindValue(st, value, start, RunEnd(st, start))
      case Some(k) => (k + 1, true)
      case None => (start + 1, false)
  }

  /** When equal names are neighbours no pair of the table is missed. */
  lemma FieldIndexFinds(st: seq<Entry>, name: seq<Byte>, value: seq<Byte>)
    requires Grouped(st)
    ensures FieldIndex(st, name, value).1 <==> Entry(name, value) in st
  {
    if k :| 0 <= k < |st| && st[k] == Entry(name, value) {
      var start := NameStart(st, name, 0).value;
      var end := RunEnd(st, start);
      assert start <= k;
      assert end <= k ==> st[start].name == st[end].name;
    }
  }

  // ---------------------------------------------------------------- the table itself

  function Ascii(s: string): (r: seq<Byte>)
    ensures |r| == |s|
  {
    seq(|s|, i requires 0 <= i < |s| => s[i] as int % 256)
  }

  function Row0(i: nat): (string, string) {
    match i
    case 0 => (":authority", "")
    case 1 => (":method", "GET")
    case 2 => (":method", "POST")
    case 3 => (":path", "/")
    case 4 => (":path", "/index.html")
    case 5 => (":scheme", "http")
    case 6 => (":scheme", "https")
    case 7 => (":status", "200")
    case 8 => (":status", "204")
    case 9 => (":status", "206")
    case 10 => (":status", "304")
    case 11 => (":status", "400")
    case 12 => (":status", "404")
    case 13 => (":status", "500")
    case 14 => ("accept-charset", "")
    case _ => ("accept-encoding", "gzip, deflate")
  }

  function Row1(i: nat): (string, string) {
    match i
    case 16 => ("accept-language", "")
    case 17 => ("accept-ranges", "")
    case 18 => ("accept", "")
    case 19 => ("access-control-allow-origin", "")
    case 20 => ("age", "")
    case 21 => ("allow", "")
    case 22 => ("authorization", "")
    case 23 => ("cache-control", "")
    case 24 => ("content-disposition", "")
    case 25 => ("content-encoding", "")
    case 26 => ("content-language", "")
    case 27 => ("content-length", "")
    case 28 => ("content-location", "")
    case 29 => ("content-range", "")
    case 30 => ("content-type", "")
    case _ => ("cookie", "")
  }

  function Row2(i: nat): (string, string) {
    match i
    case 32 => ("date", "")
    case 33 => ("etag", "")
    case 34 => ("expect", "")
    case 35 => ("expires", "")
    case 36 => ("from", "")
    case 37 => ("host", "")
    case 38 => ("if-match", "")
    case 39 => ("if-modified-since", "")
    case 40 => ("if-none-match", "")
    case 41 => ("if-range", "")
    case 42 => ("if-unmodified-since", "")
    case 43 => ("last-modified", "")
    case 44 => ("link", "")
    case 45 => ("location", "")
    case 46 => ("max-forwards", "")
    case _ => ("proxy-authenticate", "")
  }

  function Row3(i: nat): (string, string) {
    match i
    case 48 => ("proxy-authorization", "")
    case 49 => ("range", "")
    case 50 => ("referer", "")
    case 51 => ("refresh", "")
    case 52 => ("retry-after", "")
    case 53 => ("server", "")
    case 54 => ("set-cookie", "")
    case 55 => ("strict-transport-security", "")
    case 56 => ("transfer-encoding", "")
    case 57 => ("user-agent", "")
    case 58 => ("vary", "")
    case 59 => ("via", "")
    case _ => ("www-authenticate", "")
  }

  function StaticField(i: nat): (string, string) {
    if i < 16 then Row0(i) else if i < 32 then Row1(i) else if i < 48 then Row2(i) else Row3(i)
  }

  const STATIC_TABLE: seq<Entry> := seq(61,
    i requires 0 <= i < 61 => Entry(Ascii(StaticField(i).0), Ascii(StaticField(i).1)))

  /** A number that tells the names of the table apart. */
  function Key(s: string): nat
    requires s != []
  {
    3 * |s| + 2 * (s[0] as int % 256) + 3 * (s[|s| - 1] as int % 256) + 4 * (s[|s| / 2] as int % 256)
  }

  function FirstOfKey0(key: nat): nat {
    match key
    case 732 => 27
    case 758 => 17
    case 772 => 56
    case 783 => 52
    case 831 => 3
    case 856 => 5
    case 870 => 7
    case 901 => 1
    case 911 => 33
    case 918 => 20
    case 925 => 41
    case 934 => 38
    case 947 => 31
    case _ => 61
  }

  function FirstOfKey1(key: nat): nat {
    match key
    case 952 => 15
    case 953 => 0
    case 956 => 59
    case 957 => 23
    case 959 => 25
    case 964 => 18
    case 965 => 40
    case 972 => 34
    case 974 => 16
    case 978 => 42
    case 979 => 32
    case 980 => 14
    case 981 => 26
    case _ => 61
  }

  function FirstOfKey2(key: nat): nat {
    match key
    case 983 => 22
    case 984 => 39
    case 986 => 49
    case 987 => 36
    case 988 => 35
    case 989 => 44
    case 993 => 60
    case 995 => 50
    case 997 => 47
    case 998 => 21
    case 999 => 43
    case 1000 => 57
    case 1001 => 30
    case _ => 61
  }

  function FirstOfKey3(key: nat): nat {
    match key
    case 1004 => 29
    case 1005 => 24
    case 1007 => 54
    case 1008 => 28
    case 1017 => 51
    case 1027 => 48
    case 1028 => 37
    case 1034 => 45
    case 1037 => 19
    case 1055 => 46
    case 1062 => 53
    case 1067 => 58
    case 1116 => 55
    case _ => 61
  }

  /** The index of the first entry of a name with this key. */
  function FirstOfKey(key: nat): nat {
    if key < 952 then FirstOfKey0(key)
    else if key < 983 then FirstOfKey1(key)
    else if key < 1004 then FirstOfKey2(key)
    else FirstOfKey3(key)
  }

  /** The index of the first entry with the same name. */
  function GroupOf(i: nat): nat {
    if i == 2 then 1 else if i == 4 then 3 else if i == 6 then 5 else if 7 <= i <= 13 then 7 else i
  }

  predicate Placed(i: nat) {
    StaticField(i).0 != [] && FirstOfKey(Key(StaticField(i).0)) == GroupOf(i)
  }

  lemma Placed0()
    ensures Placed(0) && Placed(1) && Placed(2) && Placed(3)
  {
    hide Placed;
    assert Placed(0) by { FirstAt(0, ":authority", 953); }
    assert Placed(1) by { FirstAt(1, ":method", 901); }
    assert Placed(2) by { FirstAt(2, ":method", 901); }
    assert Placed(3) by { FirstAt(3, ":path", 831); }
  }

  lemma Placed4()
    ensures Placed(4) && Placed(5) && Placed(6) && Placed(7)
  {
    hide Placed;
    assert Placed(4) by { FirstAt(4, ":path", 831); }
    assert Placed(5) by { FirstAt(5, ":scheme", 856); }
    assert Placed(6) by { FirstAt(6, ":scheme", 856); }
    assert Placed(7) by { FirstAt(7, ":status", 870); }
  }

  lemma Placed8()
    ensures Placed(8) && Placed(9) && Placed(10) && Placed(11)
  {
    hide Placed;
    assert Placed(8) by { FirstAt(8, ":status", 870); }
    assert Placed(9) by { FirstAt(9, ":status", 870); }
    assert Placed(10) by { FirstAt(10, ":status", 870); }
    assert Placed(11) by { FirstAt(11, ":status", 870); }
  }

  lemma Placed12()
    ensures Placed(12) && Placed(13) && Placed(14) && Placed(15)
  {
    hide Placed;
    assert Placed(12) by { FirstAt(12, ":status", 870); }
    assert Placed(13) by { FirstAt(13, ":status", 870); }
    assert Placed(14) by { FirstAt(14, "accept-charset", 980); }
    assert Placed(15) by { FirstAt(15, "accept-encoding", 952); }
  }

  lemma Placed16()
    ensures Placed(16) && Placed(17) && Placed(18) && Placed(19)
  {
    hide Placed;
    assert Placed(16) by { FirstAt(16, "accept-language", 974); }
    assert Placed(17) by { FirstAt(17, "accept-ranges", 758); }
    assert Placed(18) by { FirstAt(18, "accept", 964); }
    assert Placed(19) by { FirstAt(19, "access-control-allow-origin", 1037); }
  }

  lemma Placed20()
    ensures Placed(20) && Placed(21) && Placed(22) && Placed(23)
  {
    hide Placed;
    assert Placed(20) by { FirstAt(20, "age", 918); }
    assert Placed(21) by { FirstAt(21, "allow", 998); }
    assert Placed(22) by { FirstAt(22, "authorization", 983); }
    assert Placed(23) by { FirstAt(23, "cache-control", 957); }
  }

  lemma Placed24()
    ensures Placed(24) && Placed(25) && Placed(26) && Placed(27)
  {
    hide Placed;
    assert Placed(24) by { FirstAt(24, "content-disposition", 1005); }
    assert Placed(25) by { FirstAt(25, "content-encoding", 959); }
    assert Placed(26) by { FirstAt(26, "content-language", 981); }
    assert Placed(27) by { FirstAt(27, "content-length", 732); }
  }

  lemma Placed28()
    ensures Placed(28) && Placed(29) && Placed(30) && Placed(31)
  {
    hide Placed;
    assert Placed(28) by { FirstAt(28, "content-location", 1008); }
    assert Placed(29) by { FirstAt(29, "content-range", 1004); }
    assert Placed(30) by { FirstAt(30, "content-type", 1001); }
    assert Placed(31) by { FirstAt(31, "cookie", 947); }
  }

  lemma Placed32()
    ensures Placed(32) && Placed(33) && Placed(34) && Placed(35)
  {
    hide Placed;
    assert Placed(32) by { FirstAt(32, "date", 979); }
    assert Placed(33) by { FirstAt(33, "etag", 911); }
    assert Placed(34) by { FirstAt(34, "expect", 972); }
    assert Placed(35) by { FirstAt(35, "expires", 988); }
  }

  lemma Placed36()
    ensures Placed(36) && Placed(37) && Placed(38) && Placed(39)
  {
    hide Placed;
    assert Placed(36) by { FirstAt(36, "from", 987); }
    assert Placed(37) by { FirstAt(37, "host", 1028); }
    assert Placed(38) by { FirstAt(38, "if-match", 934); }
    assert Placed(39) by { FirstAt(39, "if-modified-since", 984); }
  }

  lemma Placed40()
    ensures Placed(40) && Placed(41) && Placed(42) && Placed(43)
  {
    hide Placed;
    assert Placed(40) by { FirstAt(40, "if-none-match", 965); }
    assert Placed(41) by { FirstAt(41, "if-range", 925); }
    assert Placed(42) by { FirstAt(42, "if-unmodified-since", 978); }
    assert Placed(43) by { FirstAt(43, "last-modified", 999); }
  }

  lemma Placed44()
    ensures Placed(44) && Placed(45) && Placed(46) && Placed(47)
  {
    hide Placed;
    assert Placed(44) by { FirstAt(44, "link", 989); }
    assert Placed(45) by { FirstAt(45, "location", 1034); }
    assert Placed(46) by { FirstAt(46, "max-forwards", 1055); }
    assert Placed(47) by { FirstAt(47, "proxy-authenticate", 997); }
  }

  lemma Placed48()
    ensures Placed(48) && Placed(49) && Placed(50) && Placed(51)
  {
    hide Placed;
    assert Placed(48) by { FirstAt(48, "proxy-authorization", 1027); }
    assert Placed(49) by { FirstAt(49, "range", 986); }
    assert Placed(50) by { FirstAt(50, "referer", 995); }
    assert Placed(51) by { FirstAt(51, "refresh", 1017); }
  }

  lemma Placed52()
    ensures Placed(52) && Placed(53) && Placed(54) && Placed(55)
  {
    hide Placed;
    assert Placed(52) by { FirstAt(52, "retry-after", 783); }
    assert Placed(53) by { FirstAt(53, "server", 1062); }
    assert Placed(54) by { FirstAt(54, "set-cookie", 1007); }
    assert Placed(55) by { FirstAt(55, "strict-transport-security", 1116); }
  }

  lemma Placed56()
    ensures Placed(56) && Placed(57) && Placed(58) && Placed(59)
  {
    hide Placed;
    assert Placed(56) by { FirstAt(56, "transfer-encoding", 772); }
    assert Placed(57) by { FirstAt(57, "user-agent", 1000); }
    assert Placed(58) by { FirstAt(58, "vary", 1067); }
    assert Placed(59) by { FirstAt(59, "via", 956); }
  }

  lemma Placed60()
    ensures Placed(60)
  {
    hide Placed;
    assert Placed(60) by { FirstAt(60, "www-authenticate", 993); }
  }

  lemma FirstAt(i: nat, s: string, key: nat)
    requires s != [] && s == StaticField(i).0 && key == Key(s) && FirstOfKey(key) == GroupOf(i)
    ensures Placed(i)
  {
  }

  lemma EveryPlaced(i: nat)
    requires i < 61
    ensures Placed(i)
  {
    hide Placed;
    if i < 4 { Placed0(); } else if i < 8 { Placed4(); } else if i < 12 { Placed8(); } else
    if i < 16 { Placed12(); } else if i < 20 { Placed16(); } else if i < 24 { Placed20(); } else
    if i < 28 { Placed24(); } else if i < 32 { Placed28(); } else if i < 36 { Placed32(); } else
    if i < 40 { Placed36(); } else if i < 44 { Placed40(); } else if i < 48 { Placed44(); } else
    if i < 52 { Placed48(); } else if i < 56 { Placed52(); } else if i < 60 { Placed56(); } else { Placed60(); }
  }

  lemma KeyOfAscii(s: string, s': string)
    requires s != [] && s' != [] && Ascii(s) == Ascii(s')
    ensures Key(s) == Key(s')
  {
    assert Ascii(s)[0] == Ascii(s')[0];
    assert Ascii(s)[|s| - 1] == Ascii(s')[|s| - 1];
    assert Ascii(s)[|s| / 2] == Ascii(s')[|s| / 2];
  }

  /** Every entry is found by its name and by its pair. */
  lemma StaticTableGrouped()
    ensures |STATIC_TABLE| == 61 && Grouped(STATIC_TABLE)
  {
    hide Placed, FirstOfKey, StaticField;
    forall i, j, k | 0 <= i < j < k < 61 && STATIC_TABLE[i].name == STATIC_TABLE[k].name
      ensures STATIC_TABLE[i].name == STATIC_TABLE[j].name
    {
      SameGroup(i, k);
      SameName(i, j);
    }
  }

  lemma SameGroup(i: nat, k: nat)
    requires i < 61 && k < 61 && Ascii(StaticField(i).0) == Ascii(StaticField(k).0)
    ensures GroupOf(i) == GroupOf(k)
  {
    hide StaticField, FirstOfKey;
    EveryPlaced(i);
    EveryPlaced(k);
    KeyOfAscii(StaticField(i).0, StaticField(k).0);
  }

  lemma SameName(i: nat, j: nat)
    requires i < 61 && j < 61 && GroupOf(i) == GroupOf(j)
    ensures StaticField(i).0 == StaticField(j).0
  {
  }
}
