/**
 * `check_password_breach`: the k-anonymity range query against the Pwned Passwords service.
 * The SHA-1 hex digest and the HTTP GET are inputs (`sha1Hex`, `fetch`); what is modelled is the
 * digest split, the URL, the line splitting of the body and the `suffix:count` matching.
 */
module Breach {
  import opened Records

  const RangeEndpoint := "https://api.pwnedpasswords.com/range/"

  /** What `requests.get` produces: a response (status code and text), or a raised connection error. */
  datatype HttpReply = Reply(status: int, text: string) | ConnectionFailed

  /** The exceptions that can escape the check. */
  datatype Failure = ValueError | ConnectionError

  /** The check's outcome: the boolean it returns, or the exception it raises. */
  datatype Checked = Returned(exposed: bool) | Raised(error: Failure)

  // ---------------------------------------------------------------------------------------------
  // Digest, prefix and suffix

  function UpperChar(c: char): char
  {
    if 'a' <= c <= 'z' then (c as int - 32) as char else c
  }

  /** `str.upper()` on the ASCII letters a hex digest is made of. */
  function ToUpper(s: string): (r: string)
    ensures |r| == |s|
    ensures forall i :: 0 <= i < |r| ==> !('a' <= r[i] <= 'z')
    ensures forall i :: 0 <= i < |s| ==> (r[i] == s[i] || 'a' <= s[i] <= 'z')
    ensures forall i :: 0 <= i < |s| && 'a' <= s[i] <= 'z' ==> r[i] as int == s[i] as int - 32 && 'A' <= r[i] <= 'Z'
  {
    if s == [] then [] else [UpperChar(s[0])] + ToUpper(s[1..])
  }

  /** `hashlib.sha1(password.encode('utf-8')).hexdigest().upper()`, with SHA-1 given as `sha1Hex`. */
  function Digest(sha1Hex: string -> string, password: string): string
  {
    ToUpper(sha1Hex(password))
  }

  /** `sha1_hash[:5]` (Python slicing clamps to the length). */
  function Prefix(digest: string): (p: string)
    ensures p <= digest
    ensures |p| == if |digest| < 5 then |digest| else 5
  {
    if |digest| < 5 then digest else digest[..5]
  }

  /** `sha1_hash[5:]`: whatever the prefix leaves. */
  function Suffix(digest: string): (s: string)
    ensures Prefix(digest) + s == digest
  {
    if |digest| < 5 then "" else digest[5..]
  }

  /** The range URL: the endpoint followed by the prefix, and nothing else of the digest. */
  function RangeUrl(prefix: string): (url: string)
    ensures |url| == |RangeEndpoint| + |prefix|
    ensures RangeEndpoint <= url && url[|RangeEndpoint|..] == prefix
  {
    RangeEndpoint + prefix
  }

  /**
   * k-anonymity: two passwords whose digests agree on the first five characters send the very same
   * request, so the service learns no more than that prefix.
   */
  lemma SamePrefixSameRequest(sha1Hex: string -> string, p: string, q: string)
    requires |Digest(sha1Hex, p)| >= 5 && |Digest(sha1Hex, q)| >= 5
    requires Digest(sha1Hex, p)[..5] == Digest(sha1Hex, q)[..5]
    ensures RangeUrl(Prefix(Digest(sha1Hex, p))) == RangeUrl(Prefix(Digest(sha1Hex, q)))
    ensures |RangeUrl(Prefix(Digest(sha1Hex, p)))| == |RangeEndpoint| + 5
  {
  }

  // ---------------------------------------------------------------------------------------------
  // `response.text.splitlines()`

  /** The line boundaries of Python's `str.splitlines`. */
  predicate IsLineBreak(c: char)
  {
    c == '\n' || c == '\r' || c == '\U{0B}' || c == '\U{0C}' || c == '\U{1C}' || c == '\U{1D}' ||
    c == '\U{1E}' || c == '\U{85}' || c == '\U{2028}' || c == '\U{2029}'
  }

  predicate NoLineBreak(s: string)
  {
    forall j :: 0 <= j < |s| ==> !IsLineBreak(s[j])
  }

  /** Where the first line of `s` ends: the first boundary, or the end of `s`. */
  function LineEnd(s: string): (i: nat)
    ensures i <= |s|
    ensures NoLineBreak(s[..i])
    ensures i < |s| ==> IsLineBreak(s[i])
  {
    if s == [] || IsLineBreak(s[0]) then 0
    else
      var i := 1 + LineEnd(s[1..]);
      assert s[..i] == [s[0]] + s[1..][..i - 1];
      i
  }

  /** `str.splitlines()`: `\r\n` is one boundary, and a final boundary opens no empty last line. */
  function SplitLines(s: string): (lines: seq<string>)
    ensures forall k :: 0 <= k < |lines| ==> NoLineBreak(lines[k])
    ensures lines == [] <==> s == []
    decreases |s|
  {
    if s == [] then []
    else
      var i := LineEnd(s);
      if i == |s| then [s]
      else
        var next := if s[i] == '\r' && i + 1 < |s| && s[i + 1] == '\n' then i + 2 else i + 1;
        [s[..i]] + SplitLines(s[next..])
  }

  /** A body in the range API's format: every record followed by `\r\n`. */
  function CrlfText(lines: seq<string>): string
  {
    if lines == [] then "" else lines[0] + "\r\n" + CrlfText(lines[1..])
  }

  /** Splitting a `\r\n`-terminated body gives back exactly its records. */
  lemma {:induction false} SplitCrlfText(lines: seq<string>)
    requires forall k :: 0 <= k < |lines| ==> NoLineBreak(lines[k])
    ensures SplitLines(CrlfText(lines)) == lines
  {
    if lines != [] {
      var l := lines[0];
      var rest := CrlfText(lines[1..]);
      var s := CrlfText(lines);
      assert s == l + "\r\n" + rest;
      assert s[..|l|] == l;
      assert s[|l|] == '\r' && s[|l| + 1] == '\n';
      LineEndAt(s, l);
      assert s[|l| + 2..] == rest;
      SplitCrlfText(lines[1..]);
    }
  }

  lemma LineEndAt(s: string, l: string)
    requires l <= s && |l| < |s| && NoLineBreak(l) && IsLineBreak(s[|l|])
    ensures LineEnd(s) == |l|
  {
  }

  /** A non-empty text without a line boundary is one line. */
  lemma SplitOneLine(l: string)
    requires l != [] && NoLineBreak(l)
    ensures SplitLines(l) == [l]
  {
  }

  /**
   * Splitting at the first boundary: a line, then `\r\n` or any single boundary character (a `\r`
   * not followed by `\n`), then the rest, gives that line followed by the lines of the rest.
   */
  lemma SplitAtBoundary(l: string, b: string, rest: string)
    requires NoLineBreak(l)
    requires b == "\r\n" || (|b| == 1 && IsLineBreak(b[0]) && !(b[0] == '\r' && rest != [] && rest[0] == '\n'))
    ensures SplitLines(l + b + rest) == [l] + SplitLines(rest)
  {
    var s := l + b + rest;
    assert s[..|l|] == l;
    assert s[|l|] == b[0];
    LineEndAt(s, l);
    if b == "\r\n" {
      assert s[|l| + 1] == '\n';
      assert s[|l| + 2..] == rest;
    } else {
      assert s[|l| + 1..] == rest;
      if rest != [] {
        assert s[|l| + 1] == rest[0];
      }
    }
  }

  // ---------------------------------------------------------------------------------------------
  // `hash_suffix, count = hash_entry.split(':')` and the scan

  function IndexOf(s: string, c: char): (i: nat)
    ensures i <= |s|
    ensures forall j :: 0 <= j < i ==> s[j] != c
    ensures i < |s| ==> s[i] == c
  {
    if s == [] || s[0] == c then 0 else 1 + IndexOf(s[1..], c)
  }

  /**
   * The two-name unpacking of `line.split(':')`: it succeeds exactly when the line has one colon,
   * and then yields the text before it and the text after it.
   */
  function Unpack(line: string): (r: Option<(string, string)>)
    ensures r.Some? <==> multiset(line)[':'] == 1
    ensures r.Some? ==> r.value.0 + [':'] + r.value.1 == line && ':' !in r.value.0 && ':' !in r.value.1
  {
    var i := IndexOf(line, ':');
    assert ':' !in line[..i];
    if i == |line| then
      assert line[..i] == line;
      None
    else
      assert line == line[..i] + [':'] + line[i + 1..];
      assert multiset(line)[':'] == multiset(line[..i])[':'] + 1 + multiset(line[i + 1..])[':'];
      if ':' in line[i + 1..] then None
      else Some((line[..i], line[i + 1..]))
  }

  predicate WellFormed(line: string)
  {
    Unpack(line).Some?
  }

  /** The line unpacks and its part before the colon is the local suffix. */
  predicate MatchesSuffix(line: string, suffix: string)
  {
    Unpack(line).Some? && Unpack(line).value.0 == suffix
  }

  /** The `for` loop over the lines: first match returns true, an unpack failure raises, the end returns false. */
  function ScanLines(lines: seq<string>, suffix: string): Checked
  {
    if lines == [] then Returned(false)
    else if !WellFormed(lines[0]) then Raised(ValueError)
    else if MatchesSuffix(lines[0], suffix) then Returned(true)
    else ScanLines(lines[1..], suffix)
  }

  /** Every line before position `i` unpacks. */
  predicate UnpackedUpTo(lines: seq<string>, i: nat)
    requires i <= |lines|
  {
    forall j :: 0 <= j < i ==> WellFormed(lines[j])
  }

  /** Every line before position `i` unpacks and none of them matches. */
  predicate PassedUpTo(lines: seq<string>, i: nat, suffix: string)
    requires i <= |lines|
  {
    forall j :: 0 <= j < i ==> WellFormed(lines[j]) && !MatchesSuffix(lines[j], suffix)
  }

  lemma {:induction false} ScanFindsMatch(lines: seq<string>, suffix: string, i: nat)
    requires i < |lines| && MatchesSuffix(lines[i], suffix) && UnpackedUpTo(lines, i)
    ensures ScanLines(lines, suffix) == Returned(true)
  {
    if i > 0 && !MatchesSuffix(lines[0], suffix) {
      assert WellFormed(lines[0]);
      assert lines[1..][i - 1] == lines[i];
      assert UnpackedUpTo(lines[1..], i - 1) by {
        forall j | 0 <= j < i - 1 ensures WellFormed(lines[1..][j]) {
          assert lines[1..][j] == lines[j + 1];
        }
      }
      ScanFindsMatch(lines[1..], suffix, i - 1);
    }
  }

  lemma {:induction false} ScanTrueHasMatch(lines: seq<string>, suffix: string)
    requires ScanLines(lines, suffix) == Returned(true)
    ensures exists i :: 0 <= i < |lines| && MatchesSuffix(lines[i], suffix) && UnpackedUpTo(lines, i)
  {
    if MatchesSuffix(lines[0], suffix) {
      assert UnpackedUpTo(lines, 0);
    } else {
      ScanTrueHasMatch(lines[1..], suffix);
      var i :| 0 <= i < |lines| - 1 && MatchesSuffix(lines[1..][i], suffix) && UnpackedUpTo(lines[1..], i);
      assert lines[1..][i] == lines[i + 1];
      assert UnpackedUpTo(lines, i + 1) by {
        forall j | 0 <= j < i + 1 ensures WellFormed(lines[j]) {
          if j > 0 { assert lines[j] == lines[1..][j - 1]; }
        }
      }
    }
  }

  /** The scan reports exposure exactly when some line matches and every line before it unpacks. */
  lemma {:induction false} ScanTrueIff(lines: seq<string>, suffix: string)
    ensures ScanLines(lines, suffix) == Returned(true) <==>
            exists i :: 0 <= i < |lines| && MatchesSuffix(lines[i], suffix) && UnpackedUpTo(lines, i)
  {
    if ScanLines(lines, suffix) == Returned(true) {
      ScanTrueHasMatch(lines, suffix);
    }
    if exists i :: 0 <= i < |lines| && MatchesSuffix(lines[i], suffix) && UnpackedUpTo(lines, i) {
      var i :| 0 <= i < |lines| && MatchesSuffix(lines[i], suffix) && UnpackedUpTo(lines, i);
      ScanFindsMatch(lines, suffix, i);
    }
  }

  lemma {:induction false} ScanHitsBadLine(lines: seq<string>, suffix: string, i: nat)
    requires i < |lines| && !WellFormed(lines[i]) && PassedUpTo(lines, i, suffix)
    ensures ScanLines(lines, suffix) == Raised(ValueError)
  {
    if i > 0 {
      assert lines[1..][i - 1] == lines[i];
      assert PassedUpTo(lines[1..], i - 1, suffix) by {
        forall j | 0 <= j < i - 1 ensures WellFormed(lines[1..][j]) && !MatchesSuffix(lines[1..][j], suffix) {
          assert lines[1..][j] == lines[j + 1];
        }
      }
      ScanHitsBadLine(lines[1..], suffix, i - 1);
    }
  }

  lemma {:induction false} ScanRaisedHasBadLine(lines: seq<string>, suffix: string)
    requires ScanLines(lines, suffix).Raised?
    ensures ScanLines(lines, suffix) == Raised(ValueError)
    ensures exists i :: 0 <= i < |lines| && !WellFormed(lines[i]) && PassedUpTo(lines, i, suffix)
  {
    if !WellFormed(lines[0]) {
      assert PassedUpTo(lines, 0, suffix);
    } else {
      ScanRaisedHasBadLine(lines[1..], suffix);
      var i :| 0 <= i < |lines| - 1 && !WellFormed(lines[1..][i]) && PassedUpTo(lines[1..], i, suffix);
      assert lines[1..][i] == lines[i + 1];
      assert PassedUpTo(lines, i + 1, suffix) by {
        forall j | 0 <= j < i + 1 ensures WellFormed(lines[j]) && !MatchesSuffix(lines[j], suffix) {
          if j > 0 { assert lines[j] == lines[1..][j - 1]; }
        }
      }
    }
  }

  /**
   * The scan raises only `ValueError`, and does so exactly when some line fails to unpack before
   * any line has matched.
   */
  lemma {:induction false} ScanRaisesIff(lines: seq<string>, suffix: string)
    ensures ScanLines(lines, suffix) != Raised(ConnectionError)
    ensures ScanLines(lines, suffix) == Raised(ValueError) <==>
            exists i :: 0 <= i < |lines| && !WellFormed(lines[i]) && PassedUpTo(lines, i, suffix)
  {
    if ScanLines(lines, suffix).Raised? {
      ScanRaisedHasBadLine(lines, suffix);
    }
    if exists i :: 0 <= i < |lines| && !WellFormed(lines[i]) && PassedUpTo(lines, i, suffix) {
      var i :| 0 <= i < |lines| && !WellFormed(lines[i]) && PassedUpTo(lines, i, suffix);
      ScanHitsBadLine(lines, suffix, i);
    }
  }

  /** On a body whose every line is `suffix:count`, the result is true iff some suffix equals the local one. */
  lemma {:induction false} ScanWellFormed(lines: seq<string>, suffix: string)
    requires forall i :: 0 <= i < |lines| ==> WellFormed(lines[i])
    ensures ScanLines(lines, suffix) == Returned(exists i :: 0 <= i < |lines| && MatchesSuffix(lines[i], suffix))
  {
    if lines != [] {
      ScanWellFormed(lines[1..], suffix);
      if !MatchesSuffix(lines[0], suffix) {
        assert (exists i :: 0 <= i < |lines| && MatchesSuffix(lines[i], suffix)) ==
               (exists i :: 0 <= i < |lines| - 1 && MatchesSuffix(lines[1..][i], suffix)) by {
          if exists i :: 0 <= i < |lines| && MatchesSuffix(lines[i], suffix) {
            var i :| 0 <= i < |lines| && MatchesSuffix(lines[i], suffix);
            assert MatchesSuffix(lines[1..][i - 1], suffix);
          }
        }
      }
    }
  }

  /** What the check decides from the reply to the range query. */
  function Verdict(reply: HttpReply, suffix: string): Checked
  {
    match reply
    case ConnectionFailed => Raised(ConnectionError)
    case Reply(status, text) => if status == 200 then ScanLines(SplitLines(text), suffix) else Returned(false)
  }

  /** A reply other than 200 is reported as not exposed, and an empty 200 body likewise. */
  lemma VerdictWithoutRecords(reply: HttpReply, suffix: string)
    requires reply.Reply? && (reply.status != 200 || reply.text == "")
    ensures Verdict(reply, suffix) == Returned(false)
  {
  }

  /** A 200 reply in the range API's format reports exposure iff one of its records carries the suffix. */
  lemma VerdictOnCrlfBody(records: seq<string>, suffix: string)
    requires forall k :: 0 <= k < |records| ==> NoLineBreak(records[k]) && WellFormed(records[k])
    ensures Verdict(Reply(200, CrlfText(records)), suffix) ==
            Returned(exists i :: 0 <= i < |records| && MatchesSuffix(records[i], suffix))
  {
    SplitCrlfText(records);
    ScanWellFormed(records, suffix);
  }

  /** `check_password_breach(password)`. */
  method CheckPasswordBreach(password: string, sha1Hex: string -> string, fetch: string -> HttpReply) returns (r: Checked)
    ensures r == Verdict(fetch(RangeUrl(Prefix(Digest(sha1Hex, password)))), Suffix(Digest(sha1Hex, password)))
  {
    var sha1Hash := Digest(sha1Hex, password);
    var prefix := Prefix(sha1Hash);
    var suffix := Suffix(sha1Hash);
    var response := fetch(RangeUrl(prefix));
    if response.ConnectionFailed? {
      return Raised(ConnectionError);
    }
    if response.status == 200 {
      var hashes := SplitLines(response.text);
      var i := 0;
      while i < |hashes|
        invariant 0 <= i <= |hashes|
        invariant ScanLines(hashes[i..], suffix) == ScanLines(hashes, suffix)
      {
        var parts := Unpack(hashes[i]);
        if parts.None? {
          return Raised(ValueError);
        }
        var (hashSuffix, count) := parts.value;
        if hashSuffix == suffix {
          return Returned(true);
        }
        i := i + 1;
      }
      return Returned(false);
    } else {
      return Returned(false);
    }
  }
}
