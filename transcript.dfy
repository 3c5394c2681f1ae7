/**
 * The pure classifiers the scanner applies to command output: the liveness test on a
 * ping transcript (networkscan.py:62), the MAC-address search and normalisation on an
 * ARP transcript (networkscan.py:88-95) and the POSIX hostname token taken from the same
 * transcript (networkscan.py:104-107). The two regular expressions are written out as
 * matchers, each with a lemma tying it to the language the pattern denotes and to the
 * match Python's `re.findall` returns first.
 */
module Transcript {
  import opened Wrappers
  import opened Text

  // ---------------------------------------------------------------- liveness

  const TtlMarker: string := "ttl="

  /** `"ttl=" in str(stdout_ping).lower()`: the ping transcript shows a reply. */
  predicate IsAlive(transcript: string) {
    Contains(Lower(transcript), TtlMarker)
  }

  /** "ttl=" in any mix of cases starts at index `i` of the transcript. */
  predicate TtlAt(t: string, i: int) {
    0 <= i <= |t| - 4 &&
    (t[i] == 't' || t[i] == 'T') && (t[i + 1] == 't' || t[i + 1] == 'T') &&
    (t[i + 2] == 'l' || t[i + 2] == 'L') && t[i + 3] == '='
  }

  /** The liveness test is case-insensitive: a host is alive exactly when "ttl=", in any
      capitalisation, occurs in its transcript. */
  lemma AliveIffTtl(t: string)
    ensures IsAlive(t) <==> exists i :: TtlAt(t, i)
  {
    var low := Lower(t);
    ContainsOccurs(low, TtlMarker);
    forall i | 0 <= i <= |t| - 4 ensures OccursAt(low, TtlMarker, i) <==> TtlAt(t, i) {
      assert low[i..i + 4] == [low[i], low[i + 1], low[i + 2], low[i + 3]];
    }
    if IsAlive(t) {
      var i :| OccursAt(low, TtlMarker, i);
      assert TtlAt(t, i);
    }
    if i :| TtlAt(t, i) {
      assert OccursAt(low, TtlMarker, i);
    }
  }

  // ---------------------------------------------------------------- ARP text

  newtype byte = x: int | 0 <= x < 256

  /** Text every character of which is ASCII. */
  predicate IsAscii(text: string) {
    forall k :: 0 <= k < |text| ==> text[k] as int < 128
  }

  /** `text.encode('ascii')` for ASCII text: one byte per character. */
  function EncodeAscii(text: string): (bytes: seq<byte>)
    requires IsAscii(text)
    ensures |bytes| == |text|
  {
    seq(|text|, k requires 0 <= k < |text| => text[k] as int as byte)
  }

  /** `stdout.decode('ascii')`: fails on any byte above 127; otherwise the ASCII text that
      encodes back to the same bytes. */
  function DecodeAscii(bytes: seq<byte>): (r: Option<string>)
    ensures r.Some? <==> forall k :: 0 <= k < |bytes| ==> bytes[k] < 128
    ensures r.Some? ==> IsAscii(r.value) && EncodeAscii(r.value) == bytes
  {
    if forall k :: 0 <= k < |bytes| ==> bytes[k] < 128
    then Some(seq(|bytes|, k requires 0 <= k < |bytes| => bytes[k] as char))
    else None
  }

  /** Decoding the encoding of ASCII text gives the text back. */
  lemma AsciiRoundTrip(text: string)
    requires IsAscii(text)
    ensures DecodeAscii(EncodeAscii(text)) == Some(text)
  {
    var bytes := EncodeAscii(text);
    assert forall k :: 0 <= k < |bytes| ==> bytes[k] as int == text[k] as int;
    assert DecodeAscii(bytes).value == text;
  }

  // ---------------------------------------------------------------- MAC address

  predicate IsHexDigit(c: char) { IsDigit(c) || 'a' <= c <= 'f' || 'A' <= c <= 'F' }

  predicate IsUpperHexDigit(c: char) { IsDigit(c) || 'A' <= c <= 'F' }

  predicate IsSeparator(c: char) { c == ':' || c == '-' }

  /** `t` is in the language of `(?:[0-9a-fA-F][:-]?){k}`: `k` hexadecimal digits, each
      optionally followed by one separator. */
  predicate Groups(t: string, k: nat)
    decreases k
  {
    if k == 0 then t == []
    else
      |t| >= 1 && IsHexDigit(t[0]) &&
      (Groups(t[1..], k - 1) || (|t| >= 2 && IsSeparator(t[1]) && Groups(t[2..], k - 1)))
  }

  /** The pattern ` (?:[0-9a-fA-F][:-]?){12}` matches `s[i..j]`. */
  predicate MatchAt(s: string, i: int, j: int) {
    0 <= i < j <= |s| && s[i] == ' ' && Groups(s[i + 1..j], 12)
  }

  /** `s[i..j]` is the match `re.findall` lists first: no match starts further left, and
      none starting at `i` is longer (the quantifier and `[:-]?` are greedy). */
  ghost predicate FirstMatch(s: string, i: int, j: int) {
    MatchAt(s, i, j) &&
    forall i', j' :: MatchAt(s, i', j') ==> i < i' || (i == i' && j' <= j)
  }

  /** The greedy matcher for `(?:[0-9a-fA-F][:-]?){k}` at index `p`: the end of the match,
      if any. Backtracking never helps this pattern: skipping a separator leaves it to be
      read as the next hexadecimal digit, which it is not. */
  function MatchGroups(s: string, p: nat, k: nat): (r: Option<nat>)
    requires p <= |s|
    ensures r.Some? ==> p <= r.value <= |s|
    decreases k
  {
    if k == 0 then Some(p)
    else if p < |s| && IsHexDigit(s[p]) then
      if p + 1 < |s| && IsSeparator(s[p + 1]) then MatchGroups(s, p + 2, k - 1)
      else MatchGroups(s, p + 1, k - 1)
    else None
  }

  /** What the greedy matcher accepts is in the pattern's language. */
  lemma {:induction false} MatchGroupsSound(s: string, p: nat, k: nat)
    requires p <= |s| && MatchGroups(s, p, k).Some?
    ensures Groups(s[p..MatchGroups(s, p, k).value], k)
    decreases k
  {
    var e := MatchGroups(s, p, k).value;
    if k > 0 {
      var t := s[p..e];
      if p + 1 < |s| && IsSeparator(s[p + 1]) {
        MatchGroupsSound(s, p + 2, k - 1);
        assert t[2..] == s[p + 2..e];
      } else {
        MatchGroupsSound(s, p + 1, k - 1);
        assert t[1..] == s[p + 1..e];
      }
    }
  }

  /** Whenever the language has a word at `p`, the greedy matcher succeeds there, and no
      word of the language at `p` is longer than the one it returns. */
  lemma {:induction false} MatchGroupsLongest(s: string, p: nat, k: nat, e: nat)
    requires p <= e <= |s| && Groups(s[p..e], k)
    ensures MatchGroups(s, p, k).Some? && e <= MatchGroups(s, p, k).value
    decreases k
  {
    if k > 0 {
      var t := s[p..e];
      assert t[1..] == s[p + 1..e];
      if p + 1 < |s| && IsSeparator(s[p + 1]) {
        if k > 1 {
          assert !Groups(s[p + 1..e], k - 1);
          assert t[2..] == s[p + 2..e];
          MatchGroupsLongest(s, p + 2, k - 1, e);
        }
      } else {
        MatchGroupsLongest(s, p + 1, k - 1, e);
      }
    }
  }

  /** The leftmost match at or after index `from`, as (start, end). */
  function FindMac(s: string, from: nat): (r: Option<(nat, nat)>)
    requires from <= |s|
    ensures r.Some? ==> from <= r.value.0 < r.value.1 <= |s|
    decreases |s| - from
  {
    if from == |s| then None
    else if s[from] == ' ' && MatchGroups(s, from + 1, 12).Some?
    then Some((from, MatchGroups(s, from + 1, 12).value))
    else FindMac(s, from + 1)
  }

  /** No match starts at or after `from`. */
  ghost predicate NoMatchFrom(s: string, from: int) {
    forall i, j :: from <= i ==> !MatchAt(s, i, j)
  }

  /** `s[i..j]` is the leftmost-longest match among those starting at or after `from`. */
  ghost predicate FirstMatchFrom(s: string, from: int, i: int, j: int) {
    from <= i && MatchAt(s, i, j) &&
    forall i', j' :: from <= i' && MatchAt(s, i', j') ==> i < i' || (i == i' && j' <= j)
  }

  lemma {:induction false} FindMacLeftmost(s: string, from: nat)
    requires from <= |s|
    ensures FindMac(s, from).None? ==> NoMatchFrom(s, from)
    ensures FindMac(s, from).Some? ==>
      FirstMatchFrom(s, from, FindMac(s, from).value.0, FindMac(s, from).value.1)
    decreases |s| - from
  {
    if from < |s| {
      if s[from] == ' ' && MatchGroups(s, from + 1, 12).Some? {
        var e := MatchGroups(s, from + 1, 12).value;
        MatchGroupsSound(s, from + 1, 12);
        forall i', j' | from <= i' && MatchAt(s, i', j') ensures from < i' || j' <= e {
          if i' == from {
            MatchGroupsLongest(s, from + 1, 12, j');
          }
        }
      } else {
        FindMacLeftmost(s, from + 1);
        forall j | MatchAt(s, from, j) ensures false {
          MatchGroupsLongest(s, from + 1, 12, j);
        }
      }
    }
  }

  /** One character of the normalised MAC: `-` becomes `:`, letters are upper-cased. */
  function CanonChar(c: char): char {
    ToUpper(if c == '-' then ':' else c)
  }

  /** `t` with every character mapped through `CanonChar`. */
  function Canon(t: string): (u: string)
    ensures |u| == |t|
    ensures forall x :: 0 <= x < |u| ==> u[x] != '-' && !IsLowerLetter(u[x])
    ensures forall x :: 0 <= x < |t| && t[x] != '-' && !IsLowerLetter(t[x]) ==> u[x] == t[x]
    ensures forall x :: 0 <= x < |t| && t[x] == '-' ==> u[x] == ':'
    ensures forall x :: 0 <= x < |t| && IsLowerLetter(t[x]) ==> IsUpperLetter(u[x]) && ToLower(u[x]) == t[x]
  {
    seq(|t|, x requires 0 <= x < |t| => CanonChar(t[x]))
  }

  /** `found_mac[0].replace('-', ':').upper().strip()` */
  function NormaliseMac(m: string): string {
    Strip(Upper(ReplaceChar(m, '-', ':')))
  }

  /** `mac` in networkscan.py:92-95: the first match of the pattern, normalised, or None. */
  function MacOf(arp: string): Option<string> {
    match FindMac(arp, 0)
    case None => None
    case Some((i, j)) => Some(NormaliseMac(arp[i..j]))
  }

  /** `u` is in the language of `(?:[0-9A-F]:?){k}`: the normalised form. */
  predicate NormalGroups(u: string, k: nat)
    decreases k
  {
    if k == 0 then u == []
    else
      |u| >= 1 && IsUpperHexDigit(u[0]) &&
      (NormalGroups(u[1..], k - 1) || (|u| >= 2 && u[1] == ':' && NormalGroups(u[2..], k - 1)))
  }

  lemma {:induction false} CanonGroups(t: string, u: string, k: nat)
    requires Groups(t, k)
    requires |u| == |t| && forall x :: 0 <= x < |t| ==> u[x] == CanonChar(t[x])
    ensures NormalGroups(u, k)
    decreases k
  {
    if k > 0 {
      if Groups(t[1..], k - 1) {
        CanonGroups(t[1..], u[1..], k - 1);
      } else {
        CanonGroups(t[2..], u[2..], k - 1);
      }
    }
  }

  /** Normalising a match drops its leading space and maps every other character through
      `CanonChar`. */
  lemma NormaliseMatch(s: string, i: int, j: int)
    requires MatchAt(s, i, j)
    ensures NormaliseMac(s[i..j]) == Canon(s[i + 1..j])
  {
    var m, t := s[i..j], s[i + 1..j];
    var rc := ReplaceChar(m, '-', ':');
    var u := Upper(rc);
    var c := Canon(t);
    forall x | 0 <= x < |t| ensures u[x + 1] == c[x] && c[x] == CanonChar(t[x]) {
      assert m[x + 1] == t[x];
      assert rc[x + 1] == (if m[x + 1] == '-' then ':' else m[x + 1]);
      assert u[x + 1] == ToUpper(rc[x + 1]);
      assert c[x] == CanonChar(t[x]);
    }
    assert u[1..] == c;
    CanonGroups(t, c, 12);
    assert IsSpace(u[0]);
    assert StripLeft(u) == StripLeft(u[1..]);
    assert !IsSpace(c[0]);
    assert StripLeft(u[1..]) == c;
    var last := c[|c| - 1];
    assert last == CanonChar(t[|t| - 1]);
    assert IsHexDigit(t[|t| - 1]) || IsSeparator(t[|t| - 1]) by {
      GroupsChars(t, 12, |t| - 1);
    }
    assert !IsSpace(last);
  }

  lemma {:induction false} GroupsChars(t: string, k: nat, x: nat)
    requires Groups(t, k) && x < |t|
    ensures IsHexDigit(t[x]) || IsSeparator(t[x])
    decreases k
  {
    if k > 0 && x > 0 {
      if Groups(t[1..], k - 1) {
        GroupsChars(t[1..], k - 1, x - 1);
      } else if x > 1 {
        GroupsChars(t[2..], k - 1, x - 2);
      }
    }
  }

  /** The MAC the scanner records is the leftmost-longest match of the pattern, with its
      leading space dropped, separators turned into `:` and letters upper-cased; there is
      none exactly when the pattern matches nowhere in the ARP text. */
  lemma MacIsFirstMatch(arp: string)
    ensures MacOf(arp).None? <==> forall i, j :: !MatchAt(arp, i, j)
    ensures MacOf(arp).Some? ==>
      exists i, j :: FirstMatch(arp, i, j) && MacOf(arp).value == Canon(arp[i + 1..j])
  {
    FindMacLeftmost(arp, 0);
    if FindMac(arp, 0).Some? {
      var (i, j) := FindMac(arp, 0).value;
      NormaliseMatch(arp, i, j);
      assert FirstMatch(arp, i, j);
    }
  }

  /** The number of hexadecimal digits in `u`. */
  function HexCount(u: string): nat {
    if u == [] then 0 else (if IsHexDigit(u[0]) then 1 else 0) + HexCount(u[1..])
  }

  lemma {:induction false} NormalGroupsShape(u: string, k: nat)
    requires NormalGroups(u, k)
    ensures HexCount(u) == k && k <= |u| <= 2 * k
    ensures forall x :: 0 <= x < |u| ==> IsUpperHexDigit(u[x]) || u[x] == ':'
    ensures k > 0 ==> IsUpperHexDigit(u[0])
    decreases k
  {
    if k > 0 {
      if NormalGroups(u[1..], k - 1) {
        NormalGroupsShape(u[1..], k - 1);
      } else {
        NormalGroupsShape(u[2..], k - 1);
        assert HexCount(u) == 1 + HexCount(u[1..]);
        assert u[1..][1..] == u[2..];
      }
    }
  }

  /** A recorded MAC holds exactly twelve hexadecimal digits, all upper case, every other
      character is `:`, it starts with a digit and has no surrounding whitespace. */
  lemma MacWellFormed(arp: string)
    requires MacOf(arp).Some?
    ensures var mac := MacOf(arp).value;
      NormalGroups(mac, 12) && HexCount(mac) == 12 && 12 <= |mac| <= 24 &&
      (forall x :: 0 <= x < |mac| ==> IsUpperHexDigit(mac[x]) || mac[x] == ':') &&
      '-' !in mac && !IsSpace(mac[0]) && !IsSpace(mac[|mac| - 1])
  {
    FindMacLeftmost(arp, 0);
    var (i, j) := FindMac(arp, 0).value;
    NormaliseMatch(arp, i, j);
    var mac := MacOf(arp).value;
    CanonGroups(arp[i + 1..j], mac, 12);
    NormalGroupsShape(mac, 12);
  }

  // ---------------------------------------------------------------- POSIX hostname

  /** `\w` on ASCII text: letters, digits and underscore. */
  predicate IsWordChar(c: char) { IsUpperLetter(c) || IsLowerLetter(c) || IsDigit(c) || c == '_' }

  /** A character of `[\w-]`. */
  predicate IsTokenChar(c: char) { IsWordChar(c) || c == '-' }

  /** The end of the run of `[\w-]` characters starting at `i`. */
  function TokenEnd(s: string, i: nat): (j: nat)
    requires i <= |s|
    ensures i <= j <= |s|
    ensures forall x :: i <= x < j ==> IsTokenChar(s[x])
    ensures j == |s| || !IsTokenChar(s[j])
    decreases |s| - i
  {
    if i < |s| && IsTokenChar(s[i]) then TokenEnd(s, i + 1) else i
  }

  /** `re.findall(r'^[\w-]+', arp_out)[0]`, or None when the list is empty. Without the
      MULTILINE flag `^` anchors at index 0 of the whole transcript. */
  function PosixHostname(arp: string): (r: Option<string>)
    ensures r.None? <==> arp == [] || !IsTokenChar(arp[0])
    ensures r.Some? ==>
      var h := r.value;
      0 < |h| <= |arp| && h == arp[..|h|] &&
      (forall x :: 0 <= x < |h| ==> IsTokenChar(h[x])) &&
      (|h| == |arp| || !IsTokenChar(arp[|h|]))
  {
    var j := TokenEnd(arp, 0);
    if j == 0 then None else Some(arp[..j])
  }
}
