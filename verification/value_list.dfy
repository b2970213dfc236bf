/**
 `exclude_ip` in wg-reconf.py: the value list of an `AllowedIPs` field,
 already split and stripped into tokens, mapped to the networks left once
 one IPv4 network is excluded from every IPv4 token. The IPv4 results come
 first, in token order, each token's remainder kept together; the IPv6
 networks follow unchanged, in token order; a token of neither family is
 dropped.

 IPv6 parsing is a parameter: `parse6` stands for `IPv6Network(s)` and
 reports a network by its `compressed` text. `WellBehaved6` states the few
 facts about it that the model relies on.
 */
module ValueList {
  import opened Cidr
  import opened Text
  import opened Results
  import opened Ipv4Text
  import opened Exclusion

  /** The outcome of `IPv6Network(s)`: a network, as its compressed text, or an exception. */
  datatype V6Parse =
    | V6(text: string)
    | NotV6    // `AddressValueError`
    | V6Error  // any other exception, such as `NetmaskValueError`

  /**
   The compressed text of an IPv6 network: it reads back as itself, its
   address part holds a colon, and it is clean and carries no surrounding
   white space.
   */
  predicate Canonical6(parse6: string -> V6Parse, c: string)
  {
    && parse6(c) == V6(c)
    && ColonInAddress(c)
    && Clean(c)
    && Trimmed(c)
  }

  /**
   A text without a comma, `=` or newline. Every token read from a
   configuration line is clean: the line holds no newline, the values lie
   right of its one `=`, and the tokens are what lies between its commas.
   */
  predicate Clean(t: string)
  {
    ',' !in t && '=' !in t && '\n' !in t
  }

  /** Every token of `ts` is clean. */
  predicate AllClean(ts: seq<string>)
  {
    forall k :: 0 <= k < |ts| ==> Clean(ts[k])
  }

  /** A colon occurs in `c` before any slash: the address part of `c` holds a colon. */
  predicate ColonInAddress(c: string)
  {
    c != [] && c[0] != '/' && (c[0] == ':' || ColonInAddress(c[1..]))
  }

  lemma {:induction false} ColonInAddressPart(c: string)
    requires ColonInAddress(c)
    ensures ':' in Split(c, '/')[0]
  {
    assert Split(c, '/')[0] == [c[0]] + Split(c[1..], '/')[0];
    if c[0] != ':' {
      ColonInAddressPart(c[1..]);
    }
  }

  /**
   What `IPv6Network` does that the model relies on: a text without a colon
   is not an IPv6 address, and every network it reads from a clean text
   prints canonically. A scope id after `%` is printed back as it was
   written, so a text that is not clean may print with its comma, `=` or
   newline; nothing is assumed of those.
   */
  ghost predicate WellBehaved6(parse6: string -> V6Parse)
  {
    && (forall s :: ':' !in s ==> parse6(s) == NotV6)
    && (forall s :: Clean(s) && parse6(s).V6? ==> Canonical6(parse6, parse6(s).text))
  }

  /** Python's `flatten`: the lists one after another. */
  function Flatten<T(!new)>(l: seq<seq<T>>): (r: seq<T>)
    ensures forall v :: v in r <==> exists i :: 0 <= i < |l| && v in l[i]
  {
    if l == [] then [] else l[0] + Flatten(l[1..])
  }

  /** `parse_or_none(IPv4Network)`: only `AddressValueError` is swallowed, as `None`. */
  function ParseOrNone4(t: string): (r: Result<Option<Net>, Raised>)
    ensures r.Success? && r.value.Some? ==> Valid(r.value.value) && Parse4(t) == V4(r.value.value)
    ensures r == Success(None) <==> Parse4(t) == NotV4
    ensures r.Failure? ==>
      || (Parse4(t) == BadNetmask && r.error == InvalidNetmask(t))
      || (Parse4(t) == HostBitsNotZero && r.error == HostBitsSet(t))
  {
    match Parse4(t)
    case V4(n) => Success(Some(n))
    case NotV4 => Success(None)
    case BadNetmask => Failure(InvalidNetmask(t))
    case HostBitsNotZero => Failure(HostBitsSet(t))
  }

  /** `parse_or_none(IPv6Network)`. */
  function ParseOrNone6(parse6: string -> V6Parse, t: string): (r: Result<Option<string>, Raised>)
    ensures r.Success? && r.value.Some? ==> parse6(t) == V6(r.value.value)
    ensures r == Success(None) <==> parse6(t) == NotV6
    ensures r.Failure? ==> r.error == InvalidV6(t) && parse6(t) == V6Error
  {
    match parse6(t)
    case V6(c) => Success(Some(c))
    case NotV6 => Success(None)
    case V6Error => Failure(InvalidV6(t))
  }

  /**
   The generator that parses every token and keeps the results that are not
   `None`, consumed to the end:
   the parsed values in token order, or the first exception raised.
   */
  function Present<T(!new,==)>(parse: string -> Result<Option<T>, Raised>, tokens: seq<string>): (r: Result<seq<T>, Raised>)
    ensures r.Success? <==> forall i :: 0 <= i < |tokens| ==> parse(tokens[i]).Success?
    ensures r.Failure? ==> exists i :: 0 <= i < |tokens| && parse(tokens[i]) == Failure(r.error) &&
                                   (forall j :: 0 <= j < i ==> parse(tokens[j]).Success?)
    ensures r.Success? ==> |r.value| <= |tokens|
    ensures r.Success? ==> forall v :: v in r.value <==> exists i :: 0 <= i < |tokens| && parse(tokens[i]) == Success(Some(v))
  {
    if tokens == [] then Success([])
    else match parse(tokens[0])
      case Failure(e) => Failure(e)
      case Success(o) =>
        match Present(parse, tokens[1..])
        case Failure(e) =>
          assert forall i :: 0 <= i < |tokens[1..]| ==> tokens[1..][i] == tokens[i + 1];
          Failure(e)
        case Success(rest) =>
          assert forall i :: 0 <= i < |tokens[1..]| ==> tokens[1..][i] == tokens[i + 1];
          Success((if o.Some? then [o.value] else []) + rest)
  }

  /** The outcomes of `exclude(ip, x)` for each network, in order. */
  function ExcludeEach(nets: seq<Net>, x: Net): (r: seq<seq<Net>>)
    requires Valid(x) && forall k :: 0 <= k < |nets| ==> Valid(nets[k])
    ensures |r| == |nets| && forall k :: 0 <= k < |nets| ==> r[k] == Exclude(nets[k], x)
  {
    if nets == [] then [] else [Exclude(nets[0], x)] + ExcludeEach(nets[1..], x)
  }

  /** The `compressed` text of each network, in order. */
  function Compressed(nets: seq<Net>): (r: seq<string>)
    ensures |r| == |nets| && forall k :: 0 <= k < |nets| ==> r[k] == Show4(nets[k])
  {
    if nets == [] then [] else [Show4(nets[0])] + Compressed(nets[1..])
  }

  /** One pass consumed after another: the first exception raised, or both outputs in order. */
  function Then<T>(a: Result<seq<T>, Raised>, b: Result<seq<T>, Raised>): Result<seq<T>, Raised>
  {
    if a.Failure? then a else if b.Failure? then b else Success(a.value + b.value)
  }

  /**
   The IPv4 pass: every IPv4 token, with `x` excluded from it, printed; a
   token that is no IPv4 address is passed over, and one with a bad mask or
   host bits set raises.
   */
  function Ranges4(tokens: seq<string>, x: Net): (r: Result<seq<string>, Raised>)
    requires Valid(x)
  {
    match Present(ParseOrNone4, tokens)
    case Failure(e) => Failure(e)
    case Success(nets) =>
      PresentValid(tokens);
      Success(Compressed(Flatten(ExcludeEach(nets, x))))
  }

  /** Every network the IPv4 parse lets through is valid. */
  lemma PresentValid(tokens: seq<string>)
    requires Present(ParseOrNone4, tokens).Success?
    ensures forall k :: 0 <= k < |Present(ParseOrNone4, tokens).value| ==> Valid(Present(ParseOrNone4, tokens).value[k])
  {
    var nets := Present(ParseOrNone4, tokens).value;
    forall k | 0 <= k < |nets|
      ensures Valid(nets[k])
    {
      assert nets[k] in nets;
      var i :| 0 <= i < |tokens| && ParseOrNone4(tokens[i]) == Success(Some(nets[k]));
    }
  }

  /** The IPv6 pass: the compressed text of every IPv6 token. */
  function Ranges6(tokens: seq<string>, parse6: string -> V6Parse): (r: Result<seq<string>, Raised>)
  {
    Present(t => ParseOrNone6(parse6, t), tokens)
  }

  /** `exclude_ip` once the network to exclude is parsed: the IPv4 pass, then the IPv6 pass. */
  function ExcludeFrom(tokens: seq<string>, x: Net, parse6: string -> V6Parse): (r: Result<seq<string>, Raised>)
    requires Valid(x)
  {
    Then(Ranges4(tokens, x), Ranges6(tokens, parse6))
  }

  /**
   `exclude_ip(tokens, exclusion)`, consumed to the end. The network to
   exclude is parsed first, and any exception there escapes.
   */
  function ExcludeIp(tokens: seq<string>, exclusion: string, parse6: string -> V6Parse): (r: Result<seq<string>, Raised>)
    ensures !Parse4(exclusion).V4? ==> r == Failure(InvalidExclusion(exclusion))
  {
    match Parse4(exclusion)
    case V4(x) => ExcludeFrom(tokens, x, parse6)
    case _ => Failure(InvalidExclusion(exclusion))
  }

  // ---------------------------------------------------------------------------
  // Passes over concatenated token lists

  /** `flatten` distributes over concatenation. */
  lemma {:induction false} FlattenAppend<T(!new)>(a: seq<seq<T>>, b: seq<seq<T>>)
    ensures Flatten(a + b) == Flatten(a) + Flatten(b)
  {
    if a != [] {
      assert (a + b)[1..] == a[1..] + b;
      FlattenAppend(a[1..], b);
    } else {
      assert a + b == b;
    }
  }

  /** `flatten` of one list is that list; with `FlattenAppend` this fixes `flatten` on every input. */
  lemma FlattenSingle<T(!new)>(s: seq<T>)
    ensures Flatten([s]) == s
  {
    assert [s][1..] == [];
  }

  lemma {:induction false} ExcludeEachAppend(a: seq<Net>, b: seq<Net>, x: Net)
    requires Valid(x)
    requires forall k :: 0 <= k < |a| ==> Valid(a[k])
    requires forall k :: 0 <= k < |b| ==> Valid(b[k])
    ensures ExcludeEach(a + b, x) == ExcludeEach(a, x) + ExcludeEach(b, x)
  {
  }

  lemma {:induction false} CompressedAppend(a: seq<Net>, b: seq<Net>)
    ensures Compressed(a + b) == Compressed(a) + Compressed(b)
  {
  }

  /** A single token is parsed on its own. */
  lemma PresentSingle<T(!new)>(parse: string -> Result<Option<T>, Raised>, t: string)
    ensures parse(t).Failure? ==> Present(parse, [t]) == Failure(parse(t).error)
    ensures parse(t) == Success(None) ==> Present(parse, [t]) == Success([])
    ensures parse(t).Success? && parse(t).value.Some? ==> Present(parse, [t]) == Success([parse(t).value.value])
  {
    assert [t][0] == t && [t][1..] == [];
    if parse(t).Success? && parse(t).value.Some? {
      assert [parse(t).value.value] + [] == [parse(t).value.value];
    }
  }

  /**
   Parsing a concatenation of token lists is parsing each in turn: the
   first list's exception wins, and the values keep their order.
   */
  lemma {:induction false} PresentAppend<T(!new)>(parse: string -> Result<Option<T>, Raised>, a: seq<string>, b: seq<string>)
    ensures Present(parse, a + b) == Then(Present(parse, a), Present(parse, b))
  {
    if a == [] {
      assert a + b == b;
      if Present(parse, b).Success? {
        assert [] + Present(parse, b).value == Present(parse, b).value;
      }
    } else {
      assert (a + b)[0] == a[0] && (a + b)[1..] == a[1..] + b;
      PresentAppend(parse, a[1..], b);
      var ra, rb := Present(parse, a[1..]), Present(parse, b);
      if parse(a[0]).Success? && ra.Success? && rb.Success? {
        var o := parse(a[0]).value;
        var head := if o.Some? then [o.value] else [];
        assert (head + ra.value) + rb.value == head + (ra.value + rb.value);
      }
    }
  }

  /**
   The IPv4 pass over a concatenation is the pass over each list in turn,
   each token's remainder kept together and in token order.
   */
  lemma Ranges4Append(a: seq<string>, b: seq<string>, x: Net)
    requires Valid(x)
    ensures Ranges4(a + b, x) == Then(Ranges4(a, x), Ranges4(b, x))
  {
    PresentAppend(ParseOrNone4, a, b);
    var pa, pb := Present(ParseOrNone4, a), Present(ParseOrNone4, b);
    if pa.Success? && pb.Success? {
      PresentValid(a);
      PresentValid(b);
      ExcludeEachAppend(pa.value, pb.value, x);
      FlattenAppend(ExcludeEach(pa.value, x), ExcludeEach(pb.value, x));
      CompressedAppend(Flatten(ExcludeEach(pa.value, x)), Flatten(ExcludeEach(pb.value, x)));
    }
  }

  /** What one token contributes to the IPv4 pass. */
  lemma Ranges4Single(t: string, x: Net)
    requires Valid(x)
    ensures Parse4(t).V4? ==> Ranges4([t], x) == Success(Compressed(Exclude(Parse4(t).net, x)))
    ensures Parse4(t) == NotV4 ==> Ranges4([t], x) == Success([])
    ensures Parse4(t) == BadNetmask ==> Ranges4([t], x) == Failure(InvalidNetmask(t))
    ensures Parse4(t) == HostBitsNotZero ==> Ranges4([t], x) == Failure(HostBitsSet(t))
  {
    PresentSingle(ParseOrNone4, t);
    var p := ParseOrNone4(t);
    if p.Success? && p.value.Some? {
      var n := p.value.value;
      assert ExcludeEach([n], x) == [Exclude(n, x)];
      assert Flatten([Exclude(n, x)]) == Exclude(n, x) + [];
      assert Exclude(n, x) + [] == Exclude(n, x);
    }
  }

  /** The IPv6 pass over a concatenation is the pass over each list in turn. */
  lemma Ranges6Append(a: seq<string>, b: seq<string>, parse6: string -> V6Parse)
    ensures Ranges6(a + b, parse6) == Then(Ranges6(a, parse6), Ranges6(b, parse6))
  {
    PresentAppend(t => ParseOrNone6(parse6, t), a, b);
  }

  /** What one token contributes to the IPv6 pass. */
  lemma Ranges6Single(t: string, parse6: string -> V6Parse)
    ensures parse6(t).V6? ==> Ranges6([t], parse6) == Success([parse6(t).text])
    ensures parse6(t) == NotV6 ==> Ranges6([t], parse6) == Success([])
    ensures parse6(t) == V6Error ==> Ranges6([t], parse6) == Failure(InvalidV6(t))
  {
    PresentSingle(t => ParseOrNone6(parse6, t), t);
  }

  // ---------------------------------------------------------------------------
  // The value list as a whole

  /**
   Over a concatenation of token lists, the IPv4 results of both lists come
   before the IPv6 results of either; the first exception of the IPv4 pass
   wins over any of the IPv6 pass.
   */
  lemma ExcludeFromAppend(a: seq<string>, b: seq<string>, x: Net, parse6: string -> V6Parse)
    requires Valid(x)
    ensures ExcludeFrom(a + b, x, parse6) ==
      Then(Then(Ranges4(a, x), Ranges4(b, x)), Then(Ranges6(a, parse6), Ranges6(b, parse6)))
  {
    Ranges4Append(a, b, x);
    Ranges6Append(a, b, parse6);
  }

  /** A token that is neither an IPv4 nor an IPv6 network leaves no trace. */
  lemma DropNeither(a: seq<string>, t: string, b: seq<string>, x: Net, parse6: string -> V6Parse)
    requires Valid(x) && Parse4(t) == NotV4 && parse6(t) == NotV6
    ensures ExcludeFrom(a + [t] + b, x, parse6) == ExcludeFrom(a + b, x, parse6)
  {
    Ranges4Append(a, [t], x);
    Ranges4Append(a + [t], b, x);
    Ranges4Append(a, b, x);
    Ranges4Single(t, x);
    Ranges6Append(a, [t], parse6);
    Ranges6Append(a + [t], b, parse6);
    Ranges6Append(a, b, parse6);
    Ranges6Single(t, parse6);
    if Ranges4(a, x).Success? {
      assert Ranges4(a, x).value + [] == Ranges4(a, x).value;
    }
    if Ranges6(a, parse6).Success? {
      assert Ranges6(a, parse6).value + [] == Ranges6(a, parse6).value;
    }
  }

  /** `m` is clear of `x` or strictly inside it: the networks that excluding `x` keeps as they are. */
  predicate Untouched(m: Net, x: Net)
  {
    Disjoint(m, x) || (SubnetOf(m, x) && m != x)
  }

  /** Every network the IPv4 pass emits is valid and untouched by `x`. */
  lemma RemaindersFixed(nets: seq<Net>, x: Net, rs: seq<Net>)
    requires Valid(x) && forall k :: 0 <= k < |nets| ==> Valid(nets[k])
    requires rs == Flatten(ExcludeEach(nets, x))
    ensures forall k :: 0 <= k < |rs| ==> Valid(rs[k]) && Untouched(rs[k], x)
  {
    var each := ExcludeEach(nets, x);
    forall k | 0 <= k < |rs|
      ensures Valid(rs[k]) && Untouched(rs[k], x)
    {
      assert rs[k] in rs;
      var i :| 0 <= i < |each| && rs[k] in each[i];
      var j :| 0 <= j < |each[i]| && each[i][j] == rs[k];
    }
  }

  /** The IPv4 pass reproduces the printed networks that excluding `x` keeps as they are. */
  lemma {:induction false} Ranges4Fixed(ms: seq<Net>, x: Net)
    requires Valid(x)
    requires forall k :: 0 <= k < |ms| ==> Valid(ms[k]) && Untouched(ms[k], x)
    ensures Ranges4(Compressed(ms), x) == Success(Compressed(ms))
  {
    if ms == [] {
      assert Present(ParseOrNone4, []) == Success([]);
    } else {
      var m := ms[0];
      Ranges4Fixed(ms[1..], x);
      assert Compressed(ms) == [Show4(m)] + Compressed(ms[1..]);
      Ranges4Append([Show4(m)], Compressed(ms[1..]), x);
      Show4RoundTrip(m);
      ExcludePassThrough(m, x);
      Ranges4Single(Show4(m), x);
      assert Compressed([m]) == [Show4(m)];
    }
  }

  /** The IPv4 pass passes over canonical IPv6 texts. */
  lemma {:induction false} Ranges4Skips6(cs: seq<string>, x: Net, parse6: string -> V6Parse)
    requires Valid(x)
    requires forall k :: 0 <= k < |cs| ==> Canonical6(parse6, cs[k])
    ensures Ranges4(cs, x) == Success([])
  {
    if cs == [] {
      assert Present(ParseOrNone4, []) == Success([]);
    } else {
      var c, rest := cs[0], cs[1..];
      Ranges4Skips6(rest, x, parse6);
      assert cs == [c] + rest;
      Ranges4Append([c], rest, x);
      Ranges4SkipsOne(c, x, parse6);
    }
  }

  lemma Ranges4SkipsOne(c: string, x: Net, parse6: string -> V6Parse)
    requires Valid(x) && Canonical6(parse6, c)
    ensures Ranges4([c], x) == Success([])
  {
    ColonInAddressPart(c);
    ColonIsNotV4(c);
    Ranges4Single(c, x);
  }

  /** A printed IPv4 network holds no colon, so the IPv6 pass passes over it. */
  lemma {:induction false} Ranges6Skips4(ms: seq<Net>, parse6: string -> V6Parse)
    requires WellBehaved6(parse6)
    ensures Ranges6(Compressed(ms), parse6) == Success([])
  {
    if ms == [] {
      assert Present(t => ParseOrNone6(parse6, t), []) == Success([]);
    } else {
      var m := ms[0];
      Ranges6Skips4(ms[1..], parse6);
      assert Compressed(ms) == [Show4(m)] + Compressed(ms[1..]);
      Ranges6Append([Show4(m)], Compressed(ms[1..]), parse6);
      Show4Chars(m);
      assert ':' !in Show4(m);
      Ranges6Single(Show4(m), parse6);
    }
  }

  /** The IPv6 pass reproduces canonical IPv6 texts. */
  lemma {:induction false} Ranges6Fixed(cs: seq<string>, parse6: string -> V6Parse)
    requires forall k :: 0 <= k < |cs| ==> Canonical6(parse6, cs[k])
    ensures Ranges6(cs, parse6) == Success(cs)
  {
    if cs == [] {
      assert Present(t => ParseOrNone6(parse6, t), []) == Success([]);
    } else {
      var c, rest := cs[0], cs[1..];
      assert parse6(c) == V6(c) by {
        assert Canonical6(parse6, cs[0]);
      }
      Ranges6Fixed(rest, parse6);
      assert cs == [c] + rest;
      Ranges6Append([c], rest, parse6);
      Ranges6Single(c, parse6);
    }
  }

  /** Every text the IPv6 pass emits is canonical. */
  lemma Ranges6Canonical(tokens: seq<string>, parse6: string -> V6Parse)
    requires WellBehaved6(parse6) && AllClean(tokens) && Ranges6(tokens, parse6).Success?
    ensures forall k :: 0 <= k < |Ranges6(tokens, parse6).value| ==> Canonical6(parse6, Ranges6(tokens, parse6).value[k])
  {
    var cs := Ranges6(tokens, parse6).value;
    forall k | 0 <= k < |cs|
      ensures Canonical6(parse6, cs[k])
    {
      assert cs[k] in cs;
      var i :| 0 <= i < |tokens| && ParseOrNone6(parse6, tokens[i]) == Success(Some(cs[k]));
    }
  }

  /** Printed remainders followed by canonical IPv6 texts pass through both passes unchanged. */
  lemma RerunUnchanged(ms: seq<Net>, cs: seq<string>, x: Net, parse6: string -> V6Parse)
    requires Valid(x) && WellBehaved6(parse6)
    requires forall k :: 0 <= k < |ms| ==> Valid(ms[k]) && Untouched(ms[k], x)
    requires forall k :: 0 <= k < |cs| ==> Canonical6(parse6, cs[k])
    ensures ExcludeFrom(Compressed(ms) + cs, x, parse6) == Success(Compressed(ms) + cs)
  {
    var o4 := Compressed(ms);
    Ranges4Append(o4, cs, x);
    Ranges4Fixed(ms, x);
    Ranges4Skips6(cs, x, parse6);
    Ranges6Append(o4, cs, parse6);
    Ranges6Skips4(ms, parse6);
    Ranges6Fixed(cs, parse6);
    assert o4 + [] == o4;
    assert [] + cs == cs;
  }

  /** The output of the IPv4 pass: the printed remainders, all valid and untouched by `x`. */
  lemma Ranges4Shape(tokens: seq<string>, x: Net) returns (ms: seq<Net>)
    requires Valid(x) && Ranges4(tokens, x).Success?
    ensures Ranges4(tokens, x).value == Compressed(ms)
    ensures forall k :: 0 <= k < |ms| ==> Valid(ms[k]) && Untouched(ms[k], x)
  {
    var nets := Present(ParseOrNone4, tokens).value;
    PresentValid(tokens);
    ms := Flatten(ExcludeEach(nets, x));
    RemaindersFixed(nets, x, ms);
  }

  /** With the network to exclude parsed, the value list mapping is idempotent on clean tokens. */
  lemma ExcludeFromIdempotent(tokens: seq<string>, x: Net, parse6: string -> V6Parse)
    requires Valid(x) && WellBehaved6(parse6) && AllClean(tokens) && ExcludeFrom(tokens, x, parse6).Success?
    ensures var out := ExcludeFrom(tokens, x, parse6).value;
      ExcludeFrom(out, x, parse6) == Success(out)
  {
    var ms := Ranges4Shape(tokens, x);
    var cs := Ranges6(tokens, parse6).value;
    Ranges6Canonical(tokens, parse6);
    RerunUnchanged(ms, cs, x, parse6);
  }

  /**
   `exclude_ip` is idempotent on clean tokens: fed its own output, with the
   same network to exclude, it returns that output unchanged.
   */
  lemma ExcludeIpIdempotent(tokens: seq<string>, exclusion: string, parse6: string -> V6Parse)
    requires WellBehaved6(parse6) && AllClean(tokens) && ExcludeIp(tokens, exclusion, parse6).Success?
    ensures var out := ExcludeIp(tokens, exclusion, parse6).value;
      ExcludeIp(out, exclusion, parse6) == Success(out)
  {
    var x := Parse4(exclusion).net;
    ExcludeFromIdempotent(tokens, x, parse6);
  }

  /** A value the rewritten line can carry: non-empty, stripped, and free of `,`, `=` and newlines. */
  predicate Plain(v: string)
  {
    v != [] && Trimmed(v) && ',' !in v && '=' !in v && '\n' !in v
  }

  /** Every value of `vs` is plain. */
  predicate AllPlain(vs: seq<string>)
  {
    forall k :: 0 <= k < |vs| ==> Plain(vs[k])
  }

  lemma AllPlainAppend(a: seq<string>, b: seq<string>)
    requires AllPlain(a) && AllPlain(b)
    ensures AllPlain(a + b)
  {
    assert forall k :: |a| <= k < |a + b| ==> (a + b)[k] == b[k - |a|];
  }

  /** A printed IPv4 network is plain. */
  lemma CompressedPlain(ms: seq<Net>)
    ensures AllPlain(Compressed(ms))
  {
    forall k | 0 <= k < |ms|
      ensures Plain(Compressed(ms)[k])
    {
      Show4Plain(ms[k]);
    }
  }

  lemma Show4Plain(m: Net)
    ensures Plain(Show4(m))
  {
    Show4Chars(m);
    V4TextPlain(Show4(m));
  }

  /** Digits, dots and slashes hold no white space and no separator. */
  lemma V4TextPlain(t: string)
    requires |t| >= 1 && forall i :: 0 <= i < |t| ==> V4TextChar(t[i])
    ensures Plain(t)
  {
    assert V4TextChar(t[0]) && V4TextChar(t[|t| - 1]);
    assert forall c :: c in t ==> V4TextChar(c);
  }

  /** A canonical IPv6 text is plain. */
  lemma CanonicalPlain(parse6: string -> V6Parse, cs: seq<string>)
    requires forall k :: 0 <= k < |cs| ==> Canonical6(parse6, cs[k])
    ensures AllPlain(cs)
  {
  }

  /** Every value `exclude_ip` returns for clean tokens is plain. */
  lemma ExcludeIpPlain(tokens: seq<string>, exclusion: string, parse6: string -> V6Parse)
    requires WellBehaved6(parse6) && AllClean(tokens) && ExcludeIp(tokens, exclusion, parse6).Success?
    ensures AllPlain(ExcludeIp(tokens, exclusion, parse6).value)
  {
    var x := Parse4(exclusion).net;
    var ms := Ranges4Shape(tokens, x);
    var cs := Ranges6(tokens, parse6).value;
    Ranges6Canonical(tokens, parse6);
    CompressedPlain(ms);
    CanonicalPlain(parse6, cs);
    AllPlainAppend(Compressed(ms), cs);
  }

  /** The empty token, all that is left of an empty value list, yields nothing. */
  lemma ExcludeIpEmptyToken(exclusion: string, parse6: string -> V6Parse)
    requires WellBehaved6(parse6) && Parse4(exclusion).V4?
    ensures ExcludeIp([""], exclusion, parse6) == Success([])
  {
    var x := Parse4(exclusion).net;
    assert Split("", '/') == [""];
    Ranges4Single("", x);
    Ranges6Single("", parse6);
  }
}
