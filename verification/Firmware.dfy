/** Firmware versions as text (crates/libobsbot-core/src/types.rs). */
module Firmware {
  import opened Wrappers
  import opened Decimal

  datatype FirmwareVersion = FirmwareVersion(major: u8, minor: u8, patch: u8, build: u8) {

    /** The order derived from the order of the fields. */
    predicate Less(other: FirmwareVersion) {
      || major < other.major
      || (major == other.major
          && (|| minor < other.minor
              || (minor == other.minor
                  && (|| patch < other.patch
                      || (patch == other.patch && build < other.build)))))
    }
  }

  /** `str::split('.')`: the pieces between the dots, at least one. */
  function Split(s: string): (parts: seq<string>)
    ensures |parts| >= 1
  {
    if s == "" then [""]
    else
      var parts, last := Split(s[..|s| - 1]), s[|s| - 1];
      if last == '.' then parts + [""]
      else parts[|parts| - 1 := parts[|parts| - 1] + [last]]
  }

  /** `parts.next()?.parse().ok()?`, for the part at index k. */
  function ParsePart(parts: seq<string>, k: nat): Option<u8> {
    if k < |parts| then ParseU8(parts[k]) else None
  }

  function Parse(s: string): Option<FirmwareVersion> {
    var parts := Split(s);
    var major :- ParsePart(parts, 0);
    var minor :- ParsePart(parts, 1);
    var patch :- ParsePart(parts, 2);
    var build :- ParsePart(parts, 3);
    if |parts| > 4 then None else Some(FirmwareVersion(major, minor, patch, build))
  }

  /** `Display`. */
  function Print(v: FirmwareVersion): string {
    Dec(v.major) + "." + Dec(v.minor) + "." + Dec(v.patch) + "." + Dec(v.build)
  }

  // ---- splitting and joining ----

  predicate DotFree(s: string) {
    forall i :: 0 <= i < |s| ==> s[i] != '.'
  }

  function Join(parts: seq<string>): string
    requires |parts| >= 1
  {
    if |parts| == 1 then parts[0] else Join(parts[..|parts| - 1]) + "." + parts[|parts| - 1]
  }

  lemma {:induction false} SplitAppend(s: string, t: string)
    requires DotFree(t)
    ensures Split(s + t) == Split(s)[|Split(s)| - 1 := Split(s)[|Split(s)| - 1] + t]
  {
    if t == "" {
      assert s + t == s;
      assert Split(s)[|Split(s)| - 1] + t == Split(s)[|Split(s)| - 1];
    } else {
      var n := |t| - 1;
      assert (s + t)[..|s + t| - 1] == s + t[..n];
      SplitAppend(s, t[..n]);
      assert t == t[..n] + [t[n]];
      var last := Split(s)[|Split(s)| - 1];
      assert last + t == last + t[..n] + [t[n]];
    }
  }

  lemma SplitDot(s: string, t: string)
    requires DotFree(t)
    ensures Split(s + "." + t) == Split(s) + [t]
  {
    assert (s + ".")[..|s|] == s;
    assert Split(s + ".") == Split(s) + [""];
    SplitAppend(s + ".", t);
    assert "" + t == t;
  }

  lemma {:induction false} SplitOfJoin(parts: seq<string>)
    requires |parts| >= 1 && forall i :: 0 <= i < |parts| ==> DotFree(parts[i])
    ensures Split(Join(parts)) == parts
  {
    var n := |parts| - 1;
    if n == 0 {
      SplitAppend("", parts[0]);
      assert "" + parts[0] == parts[0];
      assert parts == [parts[0]];
    } else {
      SplitOfJoin(parts[..n]);
      SplitDot(Join(parts[..n]), parts[n]);
      assert parts == parts[..n] + [parts[n]];
    }
  }

  lemma {:induction false} JoinOfSplit(s: string)
    ensures Join(Split(s)) == s
  {
    if s != "" {
      var init, last := s[..|s| - 1], s[|s| - 1];
      JoinOfSplit(init);
      assert s == init + [last];
      if last == '.' {
        JoinSnoc(Split(init), "");
      } else {
        JoinLast(Split(init), [last]);
      }
    }
  }

  lemma JoinLast(parts: seq<string>, t: string)
    requires |parts| >= 1
    ensures Join(parts[|parts| - 1 := parts[|parts| - 1] + t]) == Join(parts) + t
  {
    var n := |parts| - 1;
    var longer := parts[n := parts[n] + t];
    if n > 0 {
      assert longer[..n] == parts[..n];
      var front := Join(parts[..n]) + ".";
      assert front + (parts[n] + t) == front + parts[n] + t;
    }
  }

  lemma JoinFour(a: string, b: string, c: string, d: string)
    ensures Join([a, b, c, d]) == a + "." + b + "." + c + "." + d
  {
    JoinSnoc([a], b);
    JoinSnoc([a, b], c);
    JoinSnoc([a, b, c], d);
    assert [a] + [b] == [a, b] && [a, b] + [c] == [a, b, c] && [a, b, c] + [d] == [a, b, c, d];
  }

  lemma JoinSnoc(parts: seq<string>, last: string)
    requires |parts| >= 1
    ensures Join(parts + [last]) == Join(parts) + "." + last
  {
    assert (parts + [last])[..|parts|] == parts;
  }

  // ---- parsing and printing ----

  /** The four parts a, b, c, d joined by dots. */
  function Dotted(a: string, b: string, c: string, d: string): string {
    a + "." + b + "." + c + "." + d
  }

  lemma SplitDotted(a: string, b: string, c: string, d: string)
    requires DotFree(a) && DotFree(b) && DotFree(c) && DotFree(d)
    ensures Split(Dotted(a, b, c, d)) == [a, b, c, d]
  {
    JoinFour(a, b, c, d);
    SplitOfJoin([a, b, c, d]);
  }

  lemma ParsedIsDotFree(s: string)
    requires ParseU8(s).Some?
    ensures DotFree(s)
  {
    var plus, noughts := ParsedIsSpelling(s);
  }

  /** A string is accepted with value v exactly when it is four spellings of the four
      numbers of v, joined by dots. */
  lemma ParsesExactly(s: string, v: FirmwareVersion)
    ensures Parse(s) == Some(v)
       <==> exists a, b, c, d :: s == Dotted(a, b, c, d) && Spells(a, b, c, d, v)
  {
    if Parse(s) == Some(v) {
      var a, b, c, d := PartsOf(s);
    }
    if a, b, c, d :| s == Dotted(a, b, c, d) && Spells(a, b, c, d, v) {
      DottedParses(a, b, c, d, v);
    }
  }

  predicate Spells(a: string, b: string, c: string, d: string, v: FirmwareVersion) {
    ParseU8(a) == Some(v.major) && ParseU8(b) == Some(v.minor)
    && ParseU8(c) == Some(v.patch) && ParseU8(d) == Some(v.build)
  }

  lemma PartsOf(s: string) returns (a: string, b: string, c: string, d: string)
    requires Parse(s).Some?
    ensures s == Dotted(a, b, c, d) && Spells(a, b, c, d, Parse(s).value)
    ensures Split(s) == [a, b, c, d]
  {
    var parts := Split(s);
    a, b, c, d := parts[0], parts[1], parts[2], parts[3];
    assert parts == [a, b, c, d];
    JoinOfSplit(s);
    JoinFour(a, b, c, d);
  }

  lemma DottedParses(a: string, b: string, c: string, d: string, v: FirmwareVersion)
    requires Spells(a, b, c, d, v)
    ensures Parse(Dotted(a, b, c, d)) == Some(v)
  {
    ParsedIsDotFree(a);
    ParsedIsDotFree(b);
    ParsedIsDotFree(c);
    ParsedIsDotFree(d);
    SplitDotted(a, b, c, d);
  }

  /** Printing a version and parsing the text gives the version back. */
  lemma ParseOfPrint(v: FirmwareVersion)
    ensures Parse(Print(v)) == Some(v)
  {
    ParseOfDec(v.major);
    ParseOfDec(v.minor);
    ParseOfDec(v.patch);
    ParseOfDec(v.build);
    DottedParses(Dec(v.major), Dec(v.minor), Dec(v.patch), Dec(v.build), v);
  }

  /** No plus sign, and no nought in front of another digit. */
  predicate Canonical(part: string) {
    part != "" && part[0] != '+' && (part[0] == '0' ==> |part| == 1)
  }

  /** Printing the version parsed from s gives s back exactly when every part of s is
      canonical. */
  lemma PrintOfParse(s: string)
    requires Parse(s).Some?
    ensures Print(Parse(s).value) == s <==> forall i :: 0 <= i < |Split(s)| ==> Canonical(Split(s)[i])
  {
    var v := Parse(s).value;
    var a, b, c, d := PartsOf(s);
    CanonicalIsDec(a);
    CanonicalIsDec(b);
    CanonicalIsDec(c);
    CanonicalIsDec(d);
    assert Split(s)[0] == a && Split(s)[1] == b && Split(s)[2] == c && Split(s)[3] == d;
    if Print(v) == s {
      DecIsDotFree(v.major);
      DecIsDotFree(v.minor);
      DecIsDotFree(v.patch);
      DecIsDotFree(v.build);
      SplitDotted(Dec(v.major), Dec(v.minor), Dec(v.patch), Dec(v.build));
      SameFour([a, b, c, d], [Dec(v.major), Dec(v.minor), Dec(v.patch), Dec(v.build)]);
    }
  }

  lemma SameFour(p: seq<string>, q: seq<string>)
    requires |p| == 4 && p == q
    ensures p[0] == q[0] && p[1] == q[1] && p[2] == q[2] && p[3] == q[3]
  {
  }

  lemma CanonicalIsDec(part: string)
    requires ParseU8(part).Some?
    ensures Canonical(part) <==> part == Dec(ParseU8(part).value)
  {
    var plus, noughts := ParsedIsSpelling(part);
  }

  lemma DecIsDotFree(n: nat)
    ensures DotFree(Dec(n))
  {
    assert AllDigits(Dec(n));
  }

  /** Not every accepted string survives: a plus sign or a leading nought is lost. */
  lemma PlusAndNoughtsAreLost()
    ensures Parse("+4.04.6.1") == Some(FirmwareVersion(4, 4, 6, 1))
    ensures Print(FirmwareVersion(4, 4, 6, 1)) != "+4.04.6.1"
  {
    assert Spelling(true, 0, 4) == "+4" && Spelling(false, 1, 4) == "04";
    assert Spelling(false, 0, 6) == "6" && Spelling(false, 0, 1) == "1";
    SpellingParses(true, 0, 4);
    SpellingParses(false, 1, 4);
    SpellingParses(false, 0, 6);
    SpellingParses(false, 0, 1);
    DottedParses("+4", "04", "6", "1", FirmwareVersion(4, 4, 6, 1));
    assert Dotted("+4", "04", "6", "1") == "+4.04.6.1";
  }

  // ---- order ----

  /** The number whose four little-endian bytes are build, patch, minor, major. */
  function AsNumber(v: FirmwareVersion): nat {
    v.build + 0x100 * v.patch + 0x1_0000 * v.minor + 0x100_0000 * v.major
  }

  /** Versions are ordered as those numbers are. */
  lemma OrderIsNumeric(v: FirmwareVersion, w: FirmwareVersion)
    ensures v.Less(w) <==> AsNumber(v) < AsNumber(w)
    ensures v == w <==> AsNumber(v) == AsNumber(w)
  {
  }
}
