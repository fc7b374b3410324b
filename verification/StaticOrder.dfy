/** The order of the static table (appendix A of RFC 7541). */
module StaticOrder {
  import opened StaticTable

  /** Alphabetical order, told by the first difference at `k`. */
  predicate LessAt(a: string, b: string, k: nat) {
    k <= |a| && k < |b| && a[..k] == b[..k] && (k == |a| || a[k] < b[k])
  }

  ghost predicate Less(a: string, b: string) {
    exists k: nat :: LessAt(a, b, k)
  }

  lemma Differ(i: nat, a: string, b: string, k: nat)
    requires a == StaticField(i).0 && b == StaticField(i + 1).0 && LessAt(a, b, k)
    ensures Less(StaticField(i).0, StaticField(i + 1).0)
  {
  }

  lemma Order14(i: nat)
    requires 14 <= i < 24 && i != 17
    ensures Less(StaticField(i).0, StaticField(i + 1).0)
  {
    hide Less;
    match i
    case 14 => Differ(14, "accept-charset", "accept-encoding", 7);
    case 15 => Differ(15, "accept-encoding", "accept-language", 7);
    case 16 => Differ(16, "accept-language", "accept-ranges", 7);
    case 18 => Differ(18, "accept", "access-control-allow-origin", 4);
    case 19 => Differ(19, "access-control-allow-origin", "age", 1);
    case 20 => Differ(20, "age", "allow", 1);
    case 21 => Differ(21, "allow", "authorization", 1);
    case 22 => Differ(22, "authorization", "cache-control", 0);
    case 23 => Differ(23, "cache-control", "content-disposition", 1);
  }

  lemma Order24(i: nat)
    requires 24 <= i <= 31
    ensures Less(StaticField(i).0, StaticField(i + 1).0)
  {
    hide Less;
    match i
    case 24 => Differ(24, "content-disposition", "content-encoding", 8);
    case 25 => Differ(25, "content-encoding", "content-language", 8);
    case 26 => Differ(26, "content-language", "content-length", 9);
    case 27 => Differ(27, "content-length", "content-location", 9);
    case 28 => Differ(28, "content-location", "content-range", 8);
    case 29 => Differ(29, "content-range", "content-type", 8);
    case 30 => Differ(30, "content-type", "cookie", 2);
    case 31 => Differ(31, "cookie", "date", 0);
  }

  lemma Order32(i: nat)
    requires 32 <= i <= 39
    ensures Less(StaticField(i).0, StaticField(i + 1).0)
  {
    hide Less;
    match i
    case 32 => Differ(32, "date", "etag", 0);
    case 33 => Differ(33, "etag", "expect", 1);
    case 34 => Differ(34, "expect", "expires", 3);
    case 35 => Differ(35, "expires", "from", 0);
    case 36 => Differ(36, "from", "host", 0);
    case 37 => Differ(37, "host", "if-match", 0);
    case 38 => Differ(38, "if-match", "if-modified-since", 4);
    case 39 => Differ(39, "if-modified-since", "if-none-match", 3);
  }

  lemma Order40(i: nat)
    requires 40 <= i <= 47
    ensures Less(StaticField(i).0, StaticField(i + 1).0)
  {
    hide Less;
    match i
    case 40 => Differ(40, "if-none-match", "if-range", 3);
    case 41 => Differ(41, "if-range", "if-unmodified-since", 3);
    case 42 => Differ(42, "if-unmodified-since", "last-modified", 0);
    case 43 => Differ(43, "last-modified", "link", 1);
    case 44 => Differ(44, "link", "location", 1);
    case 45 => Differ(45, "location", "max-forwards", 0);
    case 46 => Differ(46, "max-forwards", "proxy-authenticate", 0);
    case 47 => Differ(47, "proxy-authenticate", "proxy-authorization", 10);
  }

  lemma Order48(i: nat)
    requires 48 <= i <= 55
    ensures Less(StaticField(i).0, StaticField(i + 1).0)
  {
    hide Less;
    match i
    case 48 => Differ(48, "proxy-authorization", "range", 0);
    case 49 => Differ(49, "range", "referer", 1);
    case 50 => Differ(50, "referer", "refresh", 3);
    case 51 => Differ(51, "refresh", "retry-after", 2);
    case 52 => Differ(52, "retry-after", "server", 0);
    case 53 => Differ(53, "server", "set-cookie", 2);
    case 54 => Differ(54, "set-cookie", "strict-transport-security", 1);
    case 55 => Differ(55, "strict-transport-security", "transfer-encoding", 0);
  }

  lemma Order56(i: nat)
    requires 56 <= i <= 59
    ensures Less(StaticField(i).0, StaticField(i + 1).0)
  {
    hide Less;
    match i
    case 56 => Differ(56, "transfer-encoding", "user-agent", 0);
    case 57 => Differ(57, "user-agent", "vary", 0);
    case 58 => Differ(58, "vary", "via", 1);
    case 59 => Differ(59, "via", "www-authenticate", 0);
  }

  /** From `accept-charset` on the names are in alphabetical order, but for `accept`, which follows its compounds. */
  lemma NamesAscend(i: nat)
    requires 14 <= i < 60
    ensures if i == 17 then StaticField(i + 1).0 == "accept" else Less(StaticField(i).0, StaticField(i + 1).0)
  {
    hide Less;
    if i < 24 && i != 17 { Order14(i); }
    if 24 <= i < 32 { Order24(i); }
    if 32 <= i < 40 { Order32(i); }
    if 40 <= i < 48 { Order40(i); }
    if 48 <= i < 56 { Order48(i); }
    if i >= 56 { Order56(i); }
  }

  /** The status codes ascend. */
  lemma StatusesAscend(i: nat)
    requires 7 <= i < 13
    ensures StaticField(i).0 == StaticField(i + 1).0 == ":status"
    ensures Less(StaticField(i).1, StaticField(i + 1).1)
  {
    match i
    case 7 => assert LessAt("200", "204", 2);
    case 8 => assert LessAt("204", "206", 2);
    case 9 => assert LessAt("206", "304", 0);
    case 10 => assert LessAt("304", "400", 0);
    case 11 => assert LessAt("400", "404", 2);
    case 12 => assert LessAt("404", "500", 0);
  }
}
