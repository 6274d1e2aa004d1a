/** The rows of inputs/clients.csv: how a line is read, and how registration prints one. */
module Csv {
  import opened Text

  const UNCLAIMED := "unclaimed"

  datatype Row = Row(ip: string, mac: string, bootFile: string, os: string,
                     cluster: string, template: string, role: string)

  /** Lines with fewer than seven fields make the reader index out of range. */
  predicate Wide(line: string)
  {
    |Split(line, ',')| >= 7
  }

  /** A line as the scan loop reads it; surplus fields are ignored. */
  function RowOf(line: string): Row
    requires Wide(line)
  {
    var f := Split(line, ',');
    Row(f[0], f[1], f[2], f[3], if f[4] == "" then UNCLAIMED else f[4], f[5], f[6])
  }

  function ParseRow(line: string): Option<Row>
  {
    if Wide(line) then Some(RowOf(line)) else None
  }

  predicate AllWide(lines: seq<string>)
  {
    forall i :: 0 <= i < |lines| ==> Wide(lines[i])
  }

  /** The rows scanned before the first short line. */
  function ScanRows(lines: seq<string>): seq<Row>
  {
    if lines == [] || !Wide(lines[0]) then []
    else [RowOf(lines[0])] + ScanRows(lines[1..])
  }

  lemma {:induction false} ScanRowsConcat(a: seq<string>, b: seq<string>)
    requires AllWide(a)
    ensures |ScanRows(a)| == |a|
    ensures ScanRows(a + b) == ScanRows(a) + ScanRows(b)
  {
    if a == [] {
      assert a + b == b;
    } else {
      var s := a + b;
      assert s[0] == a[0] && s[1..] == a[1..] + b;
      ScanRowsConcat(a[1..], b);
      calc {
        ScanRows(s);
        [RowOf(a[0])] + ScanRows(s[1..]);
        [RowOf(a[0])] + (ScanRows(a[1..]) + ScanRows(b));
        ScanRows(a) + ScanRows(b);
      }
    }
  }

  predicate Clean(f: string)
  {
    ',' !in f && '\n' !in f
  }

  function Fields(r: Row): seq<string>
  {
    [r.ip, r.mac, r.bootFile, r.os, r.cluster, r.template, r.role]
  }

  lemma {:induction false} PrintThenParse(r: Row)
    ensures ParseRow(Join(Fields(r), ',')) == Some(r)
       <==> r.cluster != "" && forall f :: f in Fields(r) ==> ',' !in f
  {
    var s := Join(Fields(r), ',');
    SplitPiecesFree(s, ',');
    SplitOfJoin(Fields(r), ',');
    if ParseRow(s) == Some(r) {
      var f := Split(s, ',');
      assert forall i :: 0 <= i < 7 ==> f[i] in f;
      assert ',' !in UNCLAIMED;
    }
  }

  /** The columns of a line, in the order the header of the client file names them. */
  lemma {:induction false} ColumnsInOrder(ip: string, mac: string, bootFile: string, os: string, cluster: string,
                                          template: string, role: string)
    requires ',' !in ip && ',' !in mac && ',' !in bootFile && ',' !in os
    requires ',' !in cluster && ',' !in template && ',' !in role
    ensures var r := ParseRow(Join([ip, mac, bootFile, os, cluster, template, role], ','));
            && r.Some?
            && r.value.ip == ip && r.value.mac == mac && r.value.bootFile == bootFile && r.value.os == os
            && r.value.cluster == (if cluster == "" then "unclaimed" else cluster)
            && r.value.template == template && r.value.role == role
  {
    SplitOfJoinFree([ip, mac, bootFile, os, cluster, template, role], ',');
  }

  /** The line registration prints: four fields. The padded form is what the header and the
      other rows of the file call for. */
  datatype Format = AsPrinted | Padded

  function RegistrationLine(fmt: Format, ip: string, mac: string, os: string): string
  {
    var line := Join([ip, mac, "pxelinux.0", os], ',');
    if fmt.AsPrinted? then line else line + ",,,"
  }

  lemma Join4(a: string, b: string, c: string, d: string)
    ensures Join([a, b, c, d], ',') == a + [','] + (b + [','] + (c + [','] + d))
  {
    assert [a, b, c, d][1..] == [b, c, d];
    assert [b, c, d][1..] == [c, d];
    assert [c, d][1..] == [d];
    assert Join([c, d], ',') == c + [','] + d;
    assert Join([b, c, d], ',') == b + [','] + (c + [','] + d);
  }

  lemma Join4Width(a: string, b: string, c: string, d: string)
    ensures |Split(Join([a, b, c, d], ','), ',')|
         == 4 + multiset(a)[','] + multiset(b)[','] + multiset(c)[','] + multiset(d)[',']
  {
    Join4(a, b, c, d);
    SplitWidth(Join([a, b, c, d], ','), ',');
  }

  /** The printed line is too short for the reader unless the request itself smuggles in at
      least three commas. */
  lemma {:induction false} RegistrationWidth(ip: string, mac: string, os: string)
    ensures Wide(RegistrationLine(AsPrinted, ip, mac, os))
       <==> multiset(ip)[','] + multiset(mac)[','] + multiset(os)[','] >= 3
  {
    Join4Width(ip, mac, "pxelinux.0", os);
    assert ',' !in "pxelinux.0";
  }

  lemma {:induction false} PaddedLine(ip: string, mac: string, os: string)
    requires Clean(ip) && Clean(mac) && Clean(os)
    ensures var line := RegistrationLine(Padded, ip, mac, os);
            '\n' !in line && ParseRow(line) == Some(Row(ip, mac, "pxelinux.0", os, UNCLAIMED, "", ""))
  {
    var base := Join([ip, mac, "pxelinux.0", os], ',');
    var line := RegistrationLine(Padded, ip, mac, os);
    SplitOfJoinFree([ip, mac, "pxelinux.0", os], ',');
    assert line == ((base + [','] + "") + [','] + "") + [','] + "";
    SplitConcat(base, "", ',');
    SplitConcat(base + [','] + "", "", ',');
    SplitConcat((base + [','] + "") + [','] + "", "", ',');
    NewlineFree(ip, mac, os);
  }

  lemma NewlineFree(ip: string, mac: string, os: string)
    requires '\n' !in ip && '\n' !in mac && '\n' !in os
    ensures forall fmt :: '\n' !in RegistrationLine(fmt, ip, mac, os)
  {
    Join4(ip, mac, "pxelinux.0", os);
    assert '\n' !in "pxelinux.0" && '\n' !in ",,,";
  }
}
