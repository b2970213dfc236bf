/**
 `update_key` in wg-reconf.py: rewrite every `key = v1, v2, ...` line of a
 configuration text through a mapper on its stripped values, leaving every
 other line as it is. `Rewrite` is the rewriting wg-reconf.py applies to a
 WireGuard configuration: the `AllowedIPs` values mapped by `exclude_ip`.
 */
module Rewriter {
  import opened Text
  import opened Results
  import opened Ipv4Text
  import opened ValueList

  /** A value-list mapper that may raise. */
  type Mapper = seq<string> -> Result<seq<string>, Raised>

  /** The values text split on `,`, each piece stripped of white space. */
  function Tokens(values: string): (r: seq<string>)
    ensures |r| == Count(values, ',') + 1
    ensures forall i :: 0 <= i < |r| ==> Trimmed(r[i]) && ',' !in r[i]
  {
    var parts := Split(values, ',');
    var r := seq(|parts|, i requires 0 <= i < |parts| => Trim(parts[i]));
    assert forall i :: 0 <= i < |r| ==> Trimmed(r[i]) && ',' !in r[i] by {
      forall i | 0 <= i < |r| ensures Trimmed(r[i]) && ',' !in r[i] {
        TrimAvoids(parts[i], ',');
      }
    }
    r
  }

  /** `line` is a field line of `key`: one `=`, with `key` on its left once stripped. */
  predicate IsField(line: string, key: string)
  {
    Count(line, '=') == 1 && Trim(Split(line, '=')[0]) == key
  }

  /** The line `update_line` writes for a field line whose values map to `vs`. */
  function FieldText(key: string, vs: seq<string>): string
  {
    Trim(key) + " = " + Join(", ", vs)
  }

  /**
   `update_line(line)`. A line without `key` in it is returned as it is;
   any other line must split into exactly two parts on `=`, or the
   destructuring raises; a field line is rewritten from the mapped values.
   */
  function UpdateLine(line: string, key: string, mapper: Mapper): (r: Result<string, Raised>)
    ensures !HasSubstring(line, key) ==> r == Success(line)
    ensures HasSubstring(line, key) && Count(line, '=') == 0 ==> r == Failure(TooFewValues(line))
    ensures HasSubstring(line, key) && Count(line, '=') > 1 ==> r == Failure(TooManyValues(line))
    ensures r.Success? && r.value != line ==> IsField(line, key)
  {
    if !HasSubstring(line, key) then Success(line)
    else
      var parts := Split(line, '=');
      if |parts| < 2 then Failure(TooFewValues(line))
      else if |parts| > 2 then Failure(TooManyValues(line))
      else if Trim(parts[0]) != key then Success(line)
      else match mapper(Tokens(parts[1]))
        case Failure(e) => Failure(e)
        case Success(vs) => Success(FieldText(key, vs))
  }

  /** `f` raises `e` on line `i`, and on no line before it. */
  predicate FirstRaise(lines: seq<string>, f: string -> Result<string, Raised>, i: int, e: Raised)
  {
    0 <= i < |lines| && f(lines[i]) == Failure(e) && forall j :: 0 <= j < i ==> f(lines[j]).Success?
  }

  lemma FirstRaiseLater(lines: seq<string>, f: string -> Result<string, Raised>, i: int, e: Raised)
    requires lines != [] && f(lines[0]).Success? && FirstRaise(lines[1..], f, i, e)
    ensures FirstRaise(lines, f, i + 1, e)
  {
    assert forall j :: 1 <= j < i + 1 ==> lines[1..][j - 1] == lines[j];
  }

  /** `f` over the lines in order, stopping at the first that raises. */
  function EachLine(lines: seq<string>, f: string -> Result<string, Raised>): (r: Result<seq<string>, Raised>)
    ensures r.Success? ==> |r.value| == |lines|
    ensures r.Success? ==> forall i :: 0 <= i < |lines| ==> f(lines[i]) == Success(r.value[i])
    ensures r.Failure? ==> exists i :: FirstRaise(lines, f, i, r.error)
  {
    if lines == [] then Success([])
    else match f(lines[0])
      case Failure(e) =>
        assert FirstRaise(lines, f, 0, e);
        Failure(e)
      case Success(l) =>
        var rest := lines[1..];
        match EachLine(rest, f)
        case Failure(e) =>
          assert exists i :: FirstRaise(lines, f, i, e) by {
            var i :| FirstRaise(rest, f, i, e);
            FirstRaiseLater(lines, f, i, e);
          }
          Failure(e)
        case Success(ls) =>
          var r := [l] + ls;
          assert forall i :: 1 <= i < |lines| ==> r[i] == ls[i - 1] && lines[i] == rest[i - 1];
          Success(r)
  }

  /** `update_line` over the lines in order, stopping at the first that raises. */
  function UpdateLines(lines: seq<string>, key: string, mapper: Mapper): (r: Result<seq<string>, Raised>)
    ensures r.Success? ==> |r.value| == |lines|
    ensures r.Success? ==> forall i :: 0 <= i < |lines| ==> UpdateLine(lines[i], key, mapper) == Success(r.value[i])
    ensures r.Failure? ==> exists i :: 0 <= i < |lines| && UpdateLine(lines[i], key, mapper) == Failure(r.error) &&
                                      (forall j :: 0 <= j < i ==> UpdateLine(lines[j], key, mapper).Success?)
  {
    EachLine(lines, line => UpdateLine(line, key, mapper))
  }

  /** `update_key(config, key, mapper)`: the text split into lines, each updated, joined back. */
  function UpdateKey(config: string, key: string, mapper: Mapper): (r: Result<string, Raised>)
  {
    match UpdateLines(Split(config, '\n'), key, mapper)
    case Failure(e) => Failure(e)
    case Success(ls) => Success(Join("\n", ls))
  }

  /**
   The rewriting of one configuration text: `update_key` on the
   `AllowedIPs` field with `exclude_ip` against the network `exclusion`.
   */
  function Rewrite(config: string, exclusion: string, parse6: string -> V6Parse): Result<string, Raised>
  {
    UpdateKey(config, "AllowedIPs", ts => ExcludeIp(ts, exclusion, parse6))
  }

  /** The mapper's values for clean tokens never hold a newline. */
  ghost predicate LineSafe(mapper: Mapper)
  {
    forall ts :: AllClean(ts) && mapper(ts).Success? ==> forall i :: 0 <= i < |mapper(ts).value| ==> '\n' !in mapper(ts).value[i]
  }

  /**
   The values `vs` are plain, and the mapper returns them unchanged when
   given them back as they are read from the line it wrote: as the tokens
   `vs`, or the one empty token when `vs` is empty.
   */
  predicate Settled(mapper: Mapper, vs: seq<string>)
  {
    && AllPlain(vs)
    && mapper(if vs == [] then [""] else vs) == Success(vs)
  }

  /** Whatever the mapper returns for clean tokens, the only tokens a line yields, is settled. */
  ghost predicate Stable(mapper: Mapper)
  {
    forall ts :: AllClean(ts) && mapper(ts).Success? ==> Settled(mapper, mapper(ts).value)
  }

  // ---------------------------------------------------------------------------
  // One line

  /** Splitting `k=v` on `=`, where neither side holds `=`, gives the two sides. */
  lemma SplitField(k: string, v: string)
    requires '=' !in k && '=' !in v
    ensures Split(k + "=" + v, '=') == [k, v]
  {
    assert [k, v][1..] == [v];
    assert Join("=", [v]) == v;
    assert Join("=", [k, v]) == k + "=" + v;
    SplitJoin([k, v], '=');
  }

  /**
   The substring guard never hides a field line: a field line of `key`
   contains `key`. The guard only spares the lines without `key` the check
   on their `=` count.
   */
  lemma GuardHarmless(line: string, key: string)
    requires IsField(line, key)
    ensures HasSubstring(line, key)
  {
    var parts := Split(line, '=');
    JoinTwo("=", parts);
    assert parts[0] <= line;
    TrimOfPrefixIsSubstring(line, parts[0]);
  }

  /**
   A field line `k=v` is replaced by the stripped key, ` = `, and the
   mapped values of `v` joined with `, `; an exception of the mapper escapes.
   */
  lemma FieldLineRewritten(k: string, v: string, key: string, mapper: Mapper)
    requires '=' !in k && '=' !in v && Trim(k) == key
    ensures mapper(Tokens(v)).Failure? ==> UpdateLine(k + "=" + v, key, mapper) == Failure(mapper(Tokens(v)).error)
    ensures mapper(Tokens(v)).Success? ==>
      UpdateLine(k + "=" + v, key, mapper) == Success(FieldText(key, mapper(Tokens(v)).value))
  {
    SplitField(k, v);
    CountAbsent(k, '=');
    CountAbsent(v, '=');
    assert Count(k + "=" + v, '=') == 1 by {
      SplitFieldCount(k, v);
    }
    GuardHarmless(k + "=" + v, key);
  }

  lemma SplitFieldCount(k: string, v: string)
    requires '=' !in k && '=' !in v
    ensures Count(k + "=" + v, '=') == 1
  {
    SplitField(k, v);
  }

  /** A line that is no field line, and does not raise, is returned unchanged. */
  lemma LineUnchanged(line: string, key: string, mapper: Mapper)
    requires !HasSubstring(line, key) || (Count(line, '=') == 1 && Trim(Split(line, '=')[0]) != key)
    ensures UpdateLine(line, key, mapper) == Success(line)
  {
  }

  /**
   `update_line` raises exactly when the line holds `key` but not exactly
   one `=`, or it is a field line and the mapper raises.
   */
  lemma UpdateLineFails(line: string, key: string, mapper: Mapper)
    ensures UpdateLine(line, key, mapper).Failure? <==>
      || (HasSubstring(line, key) && Count(line, '=') != 1)
      || (IsField(line, key) && mapper(Tokens(Split(line, '=')[1])).Failure?)
  {
    if IsField(line, key) {
      GuardHarmless(line, key);
    }
  }

  // ---------------------------------------------------------------------------
  // Lines written back

  /** The values as `update_line` writes them, split on `,` and stripped, are read back as they were. */
  lemma TokensOfPrinted(vs: seq<string>)
    requires AllPlain(vs)
    ensures Tokens(" " + Join(", ", vs)) == if vs == [] then [""] else vs
  {
    if vs == [] {
      assert " " + Join(", ", vs) == " ";
      TokensOfBlank();
    } else {
      TokensOfSpaced(vs);
    }
  }

  lemma TokensOfBlank()
    ensures Tokens(" ") == [""]
  {
    SplitWithoutSeparator(" ", ',');
    TrimPadded(" ", [], []);
    assert " " + [] + [] == " ";
  }

  /** `vs` with a space before each value. */
  function Spaced(vs: seq<string>): (r: seq<string>)
    ensures |r| == |vs| && forall i :: 0 <= i < |vs| ==> r[i] == " " + vs[i]
  {
    seq(|vs|, i requires 0 <= i < |vs| => " " + vs[i])
  }

  lemma TokensOfSpaced(vs: seq<string>)
    requires vs != [] && AllPlain(vs)
    ensures Tokens(" " + Join(", ", vs)) == vs
  {
    var t := " " + Join(", ", vs);
    var spaced := Spaced(vs);
    SpacedJoin(vs);
    SpacedSplit(vs);
    TokensOfSplit(t, spaced);
    SpacedTrim(vs);
  }

  lemma SpacedSplit(vs: seq<string>)
    requires vs != [] && AllPlain(vs)
    ensures Split(Join(",", Spaced(vs)), ',') == Spaced(vs)
  {
    var spaced := Spaced(vs);
    forall i | 0 <= i < |spaced|
      ensures ',' !in spaced[i]
    {
      assert ',' !in vs[i];
    }
    SplitJoin(spaced, ',');
  }

  lemma SpacedTrim(vs: seq<string>)
    requires AllPlain(vs)
    ensures forall i :: 0 <= i < |vs| ==> Trim(Spaced(vs)[i]) == vs[i]
  {
    forall i | 0 <= i < |vs|
      ensures Trim(Spaced(vs)[i]) == vs[i]
    {
      TrimPadded(" ", vs[i], []);
      assert " " + vs[i] + [] == Spaced(vs)[i];
    }
  }

  /** The tokens of a values text without `=` and newlines are clean. */
  lemma TokensClean(values: string)
    requires '=' !in values && '\n' !in values
    ensures AllClean(Tokens(values))
  {
    var parts := Split(values, ',');
    TokensOfSplit(values, parts);
    forall i | 0 <= i < |parts|
      ensures Clean(Tokens(values)[i])
    {
      SplitPartAvoids(values, ',', i, '=');
      SplitPartAvoids(values, ',', i, '\n');
      TrimAvoids(parts[i], '=');
      TrimAvoids(parts[i], '\n');
    }
  }

  /** Every token the mapper can be given from a line of the text is clean. */
  lemma LineTokensClean(line: string)
    requires '\n' !in line && Count(line, '=') == 1
    ensures AllClean(Tokens(Split(line, '=')[1]))
  {
    SplitPartAvoids(line, '=', 1, '\n');
    TokensClean(Split(line, '=')[1]);
  }

  lemma TokensOfSplit(values: string, parts: seq<string>)
    requires Split(values, ',') == parts
    ensures |Tokens(values)| == |parts| && forall i :: 0 <= i < |parts| ==> Tokens(values)[i] == Trim(parts[i])
  {
  }

  lemma {:induction false} SpacedJoin(vs: seq<string>)
    requires vs != []
    ensures " " + Join(", ", vs) == Join(",", Spaced(vs))
  {
    var spaced := Spaced(vs);
    if |vs| > 1 {
      var rest := Spaced(vs[1..]);
      SpacedJoin(vs[1..]);
      assert spaced[1..] == rest;
      assert " " + Join(", ", vs) == (" " + vs[0]) + "," + (" " + Join(", ", vs[1..]));
    }
  }

  /** The line written for settled values is a field line that is written back the same. */
  lemma FieldTextRewritten(key: string, vs: seq<string>, mapper: Mapper)
    requires Trimmed(key) && '=' !in key && Settled(mapper, vs)
    ensures UpdateLine(FieldText(key, vs), key, mapper) == Success(FieldText(key, vs))
  {
    var k, v := FieldTextSides(key, vs);
    FieldLineRewritten(k, v, key, mapper);
    TokensOfPrinted(vs);
  }

  /** The two sides of the `=` in the line written for plain values. */
  lemma FieldTextSides(key: string, vs: seq<string>) returns (k: string, v: string)
    requires Trimmed(key) && '=' !in key
    requires AllPlain(vs)
    ensures FieldText(key, vs) == k + "=" + v
    ensures v == " " + Join(", ", vs)
    ensures '=' !in k && '=' !in v && Trim(k) == key
  {
    var j := Join(", ", vs);
    k, v := key + " ", " " + j;
    JoinAvoids(", ", vs, '=');
    TrimTrimmed(key, " ");
    SpaceAroundEquals(key, j);
    NoEqualsAdded(key, j);
  }

  lemma SpaceAroundEquals(key: string, j: string)
    ensures key + " = " + j == (key + " ") + "=" + (" " + j)
  {
  }

  lemma NoEqualsAdded(key: string, j: string)
    requires '=' !in key && '=' !in j
    ensures '=' !in key + " " && '=' !in " " + j
  {
  }

  /** A line `update_line` wrote from a line without a newline is rewritten to itself by a stable mapper. */
  lemma UpdateLineIdempotent(line: string, key: string, mapper: Mapper)
    requires Stable(mapper) && '\n' !in line && UpdateLine(line, key, mapper).Success?
    ensures UpdateLine(UpdateLine(line, key, mapper).value, key, mapper) == UpdateLine(line, key, mapper)
  {
    var o := UpdateLine(line, key, mapper).value;
    if o != line {
      var parts := Split(line, '=');
      LineTokensClean(line);
      var vs := mapper(Tokens(parts[1])).value;
      assert o == FieldText(key, vs);
      assert Settled(mapper, vs);
      TrimAvoids(parts[0], '=');
      FieldTextRewritten(key, vs, mapper);
    }
  }

  // ---------------------------------------------------------------------------
  // The whole text

  /** `UpdateLines` is `update_line` applied to each line. */
  lemma {:induction false} UpdateLinesPointwise(lines: seq<string>, outs: seq<string>, key: string, mapper: Mapper)
    requires |outs| == |lines|
    requires forall i :: 0 <= i < |lines| ==> UpdateLine(lines[i], key, mapper) == Success(outs[i])
    ensures UpdateLines(lines, key, mapper) == Success(outs)
  {
    if lines != [] {
      UpdateLinesPointwise(lines[1..], outs[1..], key, mapper);
      assert outs == [outs[0]] + outs[1..];
    }
  }

  /** A text with no field line, and no line that raises, comes back unchanged. */
  lemma UpdateKeyUnchanged(config: string, key: string, mapper: Mapper)
    requires forall i :: 0 <= i < |Split(config, '\n')| ==>
      var line := Split(config, '\n')[i];
      !HasSubstring(line, key) || (Count(line, '=') == 1 && Trim(Split(line, '=')[0]) != key)
    ensures UpdateKey(config, key, mapper) == Success(config)
  {
    var lines := Split(config, '\n');
    forall i | 0 <= i < |lines|
      ensures UpdateLine(lines[i], key, mapper) == Success(lines[i])
    {
      LineUnchanged(lines[i], key, mapper);
    }
    UpdateLinesPointwise(lines, lines, key, mapper);
  }

  /** No line `update_line` returns holds a newline, when the mapper's values hold none. */
  lemma UpdatedLineSingle(line: string, key: string, mapper: Mapper)
    requires LineSafe(mapper) && '\n' !in line && UpdateLine(line, key, mapper).Success?
    ensures '\n' !in UpdateLine(line, key, mapper).value
  {
    var o := UpdateLine(line, key, mapper).value;
    if o != line {
      var parts := Split(line, '=');
      JoinTwo("=", parts);
      LineTokensClean(line);
      var vs := mapper(Tokens(parts[1])).value;
      TrimAvoids(parts[0], '\n');
      TrimAvoids(key, '\n');
      JoinAvoids(", ", vs, '\n');
      assert o == Trim(key) + " = " + Join(", ", vs);
    }
  }

  /**
   The output has one line per line of the input, each the `update_line`
   of the input line in the same place.
   */
  lemma UpdateKeyLines(config: string, key: string, mapper: Mapper)
    requires LineSafe(mapper) && UpdateKey(config, key, mapper).Success?
    ensures var out := UpdateKey(config, key, mapper).value;
      && |Split(out, '\n')| == |Split(config, '\n')|
      && forall i :: 0 <= i < |Split(config, '\n')| ==>
           UpdateLine(Split(config, '\n')[i], key, mapper) == Success(Split(out, '\n')[i])
  {
    var lines := Split(config, '\n');
    var outs := UpdateLines(lines, key, mapper).value;
    forall i | 0 <= i < |outs|
      ensures '\n' !in outs[i]
    {
      UpdatedLineSingle(lines[i], key, mapper);
    }
    SplitJoin(outs, '\n');
  }

  /** Rewriting the output of a stable mapper's rewriting changes nothing. */
  lemma UpdateKeyIdempotent(config: string, key: string, mapper: Mapper)
    requires Stable(mapper) && UpdateKey(config, key, mapper).Success?
    ensures var out := UpdateKey(config, key, mapper).value;
      UpdateKey(out, key, mapper) == Success(out)
  {
    var out := UpdateKey(config, key, mapper).value;
    var lines := Split(config, '\n');
    var outs := UpdateLines(lines, key, mapper).value;
    StableIsLineSafe(mapper);
    UpdateKeyLines(config, key, mapper);
    SplitJoin(outs, '\n') by {
      forall i | 0 <= i < |outs|
        ensures '\n' !in outs[i]
      {
        UpdatedLineSingle(lines[i], key, mapper);
      }
    }
    forall i | 0 <= i < |outs|
      ensures UpdateLine(outs[i], key, mapper) == Success(outs[i])
    {
      UpdateLineIdempotent(lines[i], key, mapper);
    }
    UpdateLinesPointwise(outs, outs, key, mapper);
  }

  lemma StableIsLineSafe(mapper: Mapper)
    requires Stable(mapper)
    ensures LineSafe(mapper)
  {
    forall ts | AllClean(ts) && mapper(ts).Success?
      ensures forall i :: 0 <= i < |mapper(ts).value| ==> '\n' !in mapper(ts).value[i]
    {
      assert Settled(mapper, mapper(ts).value);
    }
  }

  // ---------------------------------------------------------------------------
  // The rewriting of a configuration

  /** `exclude_ip` against a fixed network is a stable mapper. */
  lemma ExcludeIpStable(exclusion: string, parse6: string -> V6Parse)
    requires WellBehaved6(parse6)
    ensures Stable(ts => ExcludeIp(ts, exclusion, parse6))
  {
    forall ts | AllClean(ts) && ExcludeIp(ts, exclusion, parse6).Success?
      ensures Settled(ts => ExcludeIp(ts, exclusion, parse6), ExcludeIp(ts, exclusion, parse6).value)
    {
      var vs := ExcludeIp(ts, exclusion, parse6).value;
      ExcludeIpPlain(ts, exclusion, parse6);
      ExcludeIpIdempotent(ts, exclusion, parse6);
      if vs == [] {
        ExcludeIpEmptyToken(exclusion, parse6);
      }
    }
  }

  /** Rewriting a configuration a second time changes nothing. */
  lemma RewriteIdempotent(config: string, exclusion: string, parse6: string -> V6Parse)
    requires WellBehaved6(parse6) && Rewrite(config, exclusion, parse6).Success?
    ensures var out := Rewrite(config, exclusion, parse6).value;
      Rewrite(out, exclusion, parse6) == Success(out)
  {
    ExcludeIpStable(exclusion, parse6);
    UpdateKeyIdempotent(config, "AllowedIPs", ts => ExcludeIp(ts, exclusion, parse6));
  }

  /** The rewritten configuration has as many lines as the original. */
  lemma RewriteKeepsLines(config: string, exclusion: string, parse6: string -> V6Parse)
    requires WellBehaved6(parse6) && Rewrite(config, exclusion, parse6).Success?
    ensures |Split(Rewrite(config, exclusion, parse6).value, '\n')| == |Split(config, '\n')|
  {
    ExcludeIpStable(exclusion, parse6);
    StableIsLineSafe(ts => ExcludeIp(ts, exclusion, parse6));
    UpdateKeyLines(config, "AllowedIPs", ts => ExcludeIp(ts, exclusion, parse6));
  }
}
