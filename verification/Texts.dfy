/** Text as the symbol file code handles it: tokens cut by `strtok_r`, and
    numbers printed by streams and read back by `strtoul`.
 */
module Texts {
  import opened Machine

  // ----- Tokens

  /** The number of leading characters of `s` that are not in `breaks`. */
  function Run(s: string, breaks: string): (n: nat)
    ensures n <= |s|
    ensures forall i :: 0 <= i < n ==> s[i] !in breaks
    ensures n < |s| ==> s[n] in breaks
  {
    if s == "" || s[0] in breaks then 0 else 1 + Run(s[1..], breaks)
  }

  /** `s` without its leading characters in `breaks`. */
  function Skip(s: string, breaks: string): (r: string)
    ensures |r| <= |s|
    ensures r != "" ==> r[0] !in breaks
  {
    if s != "" && s[0] in breaks then Skip(s[1..], breaks) else s
  }

  /** One call to `strtok_r`: the next token and what is left after its delimiter. */
  function NextToken(s: string, breaks: string): (r: Option<(string, string)>)
    ensures r.Some? ==> r.value.0 != "" && |r.value.1| < |s|
  {
    var t := Skip(s, breaks);
    if t == "" then None
    else
      var n := Run(t, breaks);
      Some((t[..n], if n < |t| then t[n + 1..] else ""))
  }

  /** All the tokens of `s`: the maximal stretches without delimiters. */
  function Tokens(s: string, breaks: string): seq<string>
  {
    Cut("", s, breaks)
  }

  /** The tokens of `cur + s`, where `cur` is the beginning of a token. */
  function Cut(cur: string, s: string, breaks: string): seq<string>
    decreases |s|
  {
    if s == "" then Whole(cur)
    else if s[0] in breaks then Whole(cur) + Cut("", s[1..], breaks)
    else Cut(cur + [s[0]], s[1..], breaks)
  }

  function Whole(cur: string): seq<string>
  {
    if cur == "" then [] else [cur]
  }

  /** A non-empty string without delimiters. */
  predicate Word(s: string, breaks: string)
  {
    s != "" && Clean(s, breaks)
  }

  predicate Clean(s: string, breaks: string)
  {
    forall i :: 0 <= i < |s| ==> s[i] !in breaks
  }

  lemma {:induction false} CutConcat(cur: string, s: string, b: char, t: string, breaks: string)
    requires b in breaks
    ensures Cut(cur, s + [b] + t, breaks) == Cut(cur, s, breaks) + Tokens(t, breaks)
    decreases |s|
  {
    if s == "" {
      assert s + [b] + t == [b] + t;
    } else {
      assert (s + [b] + t)[1..] == s[1..] + [b] + t;
      if s[0] in breaks {
        CutConcat("", s[1..], b, t, breaks);
      } else {
        CutConcat(cur + [s[0]], s[1..], b, t, breaks);
      }
    }
  }

  /** Tokens never cross a delimiter. */
  lemma TokensConcat(s: string, b: char, t: string, breaks: string)
    requires b in breaks
    ensures Tokens(s + [b] + t, breaks) == Tokens(s, breaks) + Tokens(t, breaks)
  {
    CutConcat("", s, b, t, breaks);
  }

  lemma {:induction false} CutClean(cur: string, s: string, breaks: string)
    requires Clean(s, breaks)
    ensures Cut(cur, s, breaks) == Whole(cur + s)
    decreases |s|
  {
    if s == "" {
      assert cur + s == cur;
    } else {
      CutClean(cur + [s[0]], s[1..], breaks);
      assert cur + [s[0]] + s[1..] == cur + s;
    }
  }

  /** A word is its own only token. */
  lemma LoneWord(w: string, breaks: string)
    requires Word(w, breaks)
    ensures Tokens(w, breaks) == [w]
  {
    CutClean("", w, breaks);
    assert "" + w == w;
  }

  lemma {:induction false} CutAreWords(cur: string, s: string, breaks: string)
    requires Clean(cur, breaks)
    ensures forall i :: 0 <= i < |Cut(cur, s, breaks)| ==> Word(Cut(cur, s, breaks)[i], breaks)
    decreases |s|
  {
    if s != "" {
      if s[0] in breaks {
        CutAreWords("", s[1..], breaks);
      } else {
        CutAreWords(cur + [s[0]], s[1..], breaks);
      }
    }
  }

  /** `strtok_r` called to the end yields the tokens one by one. */
  lemma {:induction false} TokensByCalls(s: string, breaks: string)
    ensures Tokens(s, breaks) ==
            match NextToken(s, breaks)
            case None => []
            case Some((t, rest)) => [t] + Tokens(rest, breaks)
    decreases |s|
  {
    if s != "" && s[0] in breaks {
      TokensByCalls(s[1..], breaks);
    } else if s != "" {
      var n := Run(s, breaks);
      LoneWord(s[..n], breaks);
      if n < |s| {
        TokensConcat(s[..n], s[n], s[n + 1..], breaks);
        assert s == s[..n] + [s[n]] + s[n + 1..];
      } else {
        assert s[..n] == s;
        assert Tokens("", breaks) == [];
      }
    }
  }

  lemma {:induction false} RunStops(s: string, breaks: string, n: nat)
    requires n <= |s| && (forall i :: 0 <= i < n ==> s[i] !in breaks) && (n < |s| ==> s[n] in breaks)
    ensures Run(s, breaks) == n
  {
    if n > 0 {
      RunStops(s[1..], breaks, n - 1);
    }
  }

  /** A word followed by a delimiter is the first token. */
  lemma NextTokenWord(w: string, b: char, rest: string, breaks: string)
    requires Word(w, breaks) && b in breaks
    ensures NextToken(w + [b] + rest, breaks) == Some((w, rest))
  {
    var s := w + [b] + rest;
    RunStops(s, breaks, |w|);
    assert s[..|w|] == w && s[|w| + 1..] == rest;
  }

  /** Text without delimiters is a token to the end. */
  lemma NextTokenAll(w: string, breaks: string)
    requires Word(w, breaks)
    ensures NextToken(w, breaks) == Some((w, ""))
  {
    RunStops(w, breaks, |w|);
    assert w[..|w|] == w;
  }

  /** The words of `ws` with single spaces between them. */
  function Join(ws: seq<string>): string
  {
    if ws == [] then "" else if |ws| == 1 then ws[0]
    else Join(ws[..|ws| - 1]) + " " + ws[|ws| - 1]
  }

  lemma {:induction false} TokensJoin(ws: seq<string>, breaks: string)
    requires ' ' in breaks && forall i :: 0 <= i < |ws| ==> Word(ws[i], breaks)
    ensures Tokens(Join(ws), breaks) == ws
    decreases |ws|
  {
    if |ws| == 1 {
      LoneWord(ws[0], breaks);
    } else if |ws| > 1 {
      var n := |ws| - 1;
      TokensJoin(ws[..n], breaks);
      TokensConcat(Join(ws[..n]), ' ', ws[n], breaks);
      LoneWord(ws[n], breaks);
      assert Join(ws) == Join(ws[..n]) + [' '] + ws[n];
    }
  }

  /** The part of `s` that a C string function sees. */
  function CString(s: string): string
  {
    s[..Run(s, "\0")]
  }

  lemma CStringWhole(s: string)
    requires forall i :: 0 <= i < |s| ==> s[i] != '\0'
    ensures CString(s) == s
  {
    RunStops(s, "\0", |s|);
  }

  // ----- Numbers

  const DIGITS: string := "0123456789abcdef"

  /** A number printed in base 10 or 16 by a stream. */
  function Print(n: nat, base: nat): (s: string)
    requires 2 <= base <= 16
    ensures s != "" && forall i :: 0 <= i < |s| ==> s[i] in DIGITS
    decreases n
  {
    var d := n % base;
    assert DIGITS[d] in DIGITS;
    if n < base then [DIGITS[d]] else Print(n / base, base) + [DIGITS[d]]
  }

  /** A signed number printed in base 10. */
  function PrintSigned(n: int): string
  {
    if n < 0 then "-" + Print(-n, 10) else Print(n, 10)
  }

  function HexDigit(c: char): (d: Option<nat>)
    ensures d.Some? ==> d.value < 16
  {
    if '0' <= c <= '9' then Some(c as int - '0' as int)
    else if 'a' <= c <= 'f' then Some(c as int - 'a' as int + 10)
    else if 'A' <= c <= 'F' then Some(c as int - 'A' as int + 10)
    else None
  }

  /** The value of the longest prefix of hexadecimal digits. */
  function HexPrefix(s: string, acc: nat): nat
    decreases |s|
  {
    if s == "" || HexDigit(s[0]).None? then acc
    else HexPrefix(s[1..], 16 * acc + HexDigit(s[0]).value)
  }

  /** `strtoul(s, NULL, 16)` with a 64-bit `unsigned long`. */
  function StrToUl(s: string): U64
  {
    var t := Skip(s, " \t\n\r\U{0b}\U{0c}");
    var negative := t != "" && t[0] == '-';
    var u := if t != "" && (t[0] == '-' || t[0] == '+') then t[1..] else t;
    var prefixed := |u| >= 3 && u[0] == '0' && (u[1] == 'x' || u[1] == 'X') && HexDigit(u[2]).Some?;
    var v := HexPrefix(if prefixed then u[2..] else u, 0);
    if v >= TWO_64 then TWO_64 - 1
    else if negative then Sub64(0, v) else v
  }

  lemma {:induction false} HexPrefixAppend(s: string, c: char, acc: nat)
    requires forall i :: 0 <= i < |s| ==> HexDigit(s[i]).Some?
    requires HexDigit(c).Some?
    ensures HexPrefix(s + [c], acc) == 16 * HexPrefix(s, acc) + HexDigit(c).value
    decreases |s|
  {
    if s == "" {
      assert s + [c] == [c] && [c][1..] == "";
    } else {
      assert (s + [c])[1..] == s[1..] + [c];
      HexPrefixAppend(s[1..], c, 16 * acc + HexDigit(s[0]).value);
    }
  }

  lemma DigitValues(d: nat)
    requires d < 16
    ensures HexDigit(DIGITS[d]) == Some(d)
  {
  }

  lemma DigitsAreHex(c: char)
    requires c in DIGITS
    ensures HexDigit(c).Some? && c !in " \t\n\r\U{0b}\U{0c}\0" && c != '-' && c != '+' && c != 'x' && c != 'X' && c != ':' && c != 'I'
  {
  }

  lemma {:induction false} HexPrefixReads(n: nat)
    ensures HexPrefix(Print(n, 16), 0) == n
    decreases n
  {
    if n < 16 {
      DigitValues(n);
      assert [DIGITS[n]][1..] == "";
    } else {
      HexPrefixReads(n / 16);
      forall i | 0 <= i < |Print(n / 16, 16)|
        ensures HexDigit(Print(n / 16, 16)[i]).Some?
      {
        DigitsAreHex(Print(n / 16, 16)[i]);
      }
      DigitValues(n % 16);
      HexPrefixAppend(Print(n / 16, 16), DIGITS[n % 16], 0);
    }
  }

  /** What a stream prints in hexadecimal, `strtoul` reads back. */
  lemma HexRoundTrip(n: U64)
    ensures StrToUl(Print(n, 16)) == n
  {
    var s := Print(n, 16);
    HexPrefixReads(n);
    DigitsAreHex(s[0]);
    if |s| >= 2 {
      DigitsAreHex(s[1]);
    }
  }

  /** Printed numbers are words. */
  lemma PrintIsWord(n: nat, base: nat)
    requires 2 <= base <= 16
    ensures Word(Print(n, base), " \t\r\n") && Word(Print(n, base), " \r\n\0")
    ensures Print(n, base)[|Print(n, base)| - 1] != ':' && Print(n, base) != "INIT"
    ensures forall i :: 0 <= i < |Print(n, base)| ==> Print(n, base)[i] != '\0'
  {
    var s := Print(n, base);
    forall i | 0 <= i < |s|
      ensures s[i] !in " \t\r\n" && s[i] != ':' && s[i] != '\0' && s[i] != 'I'
    {
      DigitsAreHex(s[i]);
    }
  }
}
