/**
 * `parse_num_channels` of `models/base_model.py`: the total channel count of
 * a list of named inputs. The `<NAME>_CHANNELS` constants of `TryonDataset`
 * are a registry parameter mapping attribute names to their values.
 */
module BaseModel {
  import opened Wrappers
  import opened PyStr

  /** The argument: a bare string, or an iterable of input names. */
  datatype ChannelInputs = Single(name: string) | Names(names: seq<string>)

  /** `getattr` raised `AttributeError` for this attribute name. */
  datatype ChannelError = MissingAttribute(attr: string)

  /** The `TryonDataset` attributes: attribute name to value. */
  type Registry = map<string, int>

  /** The attribute looked up for one input: `f"{inp.upper()}_CHANNELS"`. */
  function ChannelAttr(name: string): (r: string)
    ensures |r| == |name| + 9 && r[..|name|] == Upper(name) && r[|name|..] == "_CHANNELS"
  {
    Upper(name) + "_CHANNELS"
  }

  /** Two names share a registry attribute exactly when they upper-case alike. */
  lemma ChannelAttrSameIff(a: string, b: string)
    ensures ChannelAttr(a) == ChannelAttr(b) <==> Upper(a) == Upper(b)
  {
    if ChannelAttr(a) == ChannelAttr(b) {
      assert Upper(a) == ChannelAttr(a)[..|a|] == ChannelAttr(b)[..|b|] == Upper(b);
    }
  }

  /** The generator-expression `sum`, evaluated left to right, stopping at the first missing attribute. */
  function SumChannels(names: seq<string>, registry: Registry): (r: Result<int, ChannelError>)
    ensures r.Ok? <==> AllRegistered(names, registry)
  {
    if names == [] then Ok(0)
    else
      var attr := ChannelAttr(names[0]);
      if attr !in registry then Err(MissingAttribute(attr))
      else match SumChannels(names[1..], registry)
        case Err(e) => Err(e)
        case Ok(rest) => Ok(registry[attr] + rest)
  }

  /** `parse_num_channels(list_of_inputs)` */
  function ParseNumChannels(inputs: ChannelInputs, registry: Registry): (r: Result<int, ChannelError>)
    ensures inputs.Single? ==> (r.Ok? <==> ChannelAttr(inputs.name) in registry)
    ensures inputs.Names? ==> (r.Ok? <==> AllRegistered(inputs.names, registry))
    ensures inputs == Names([]) ==> r == Ok(0)
  {
    match inputs
    case Single(name) => SumChannels([name], registry)
    case Names(names) => SumChannels(names, registry)
  }

  /** Every input name has a registered channel count. */
  predicate AllRegistered(names: seq<string>, registry: Registry)
  {
    forall i :: 0 <= i < |names| ==> ChannelAttr(names[i]) in registry
  }

  /** Combining the results of two consecutive parts: the first error wins, counts add up. */
  function Combine(a: Result<int, ChannelError>, b: Result<int, ChannelError>): Result<int, ChannelError>
  {
    match a
    case Err(e) => Err(e)
    case Ok(x) =>
      match b
      case Err(e) => Err(e)
      case Ok(y) => Ok(x + y)
  }

  /**
   * A bare string counts as the one-element list holding it (the first
   * clause holds by the definition of `ParseNumChannels`); the second gives
   * the closed form: its registered value, or the missing attribute.
   */
  lemma SingleIsOneElementList(name: string, registry: Registry)
    ensures ParseNumChannels(Single(name), registry) == ParseNumChannels(Names([name]), registry)
    ensures ParseNumChannels(Single(name), registry) ==
      if ChannelAttr(name) in registry then Ok(registry[ChannelAttr(name)])
      else Err(MissingAttribute(ChannelAttr(name)))
  {
    assert [name][1..] == [];
    assert SumChannels([name][1..], registry) == Ok(0);
  }

  /** Counting a concatenation is counting each part and adding. */
  lemma {:induction false} SumChannelsAppend(a: seq<string>, b: seq<string>, registry: Registry)
    ensures SumChannels(a + b, registry) == Combine(SumChannels(a, registry), SumChannels(b, registry))
  {
    if a == [] {
      assert a + b == b;
    } else {
      assert (a + b)[0] == a[0] && (a + b)[1..] == a[1..] + b;
      SumChannelsAppend(a[1..], b, registry);
    }
  }

  /**
   * The count fails exactly when some name is unregistered, and then
   * reports the first such name's attribute.
   */
  lemma {:induction false} SumChannelsFailsIff(names: seq<string>, registry: Registry)
    ensures SumChannels(names, registry).Ok? <==> AllRegistered(names, registry)
    ensures SumChannels(names, registry).Err? ==>
      exists j :: 0 <= j < |names| && AllRegistered(names[..j], registry) &&
        ChannelAttr(names[j]) !in registry &&
        SumChannels(names, registry).error == MissingAttribute(ChannelAttr(names[j]))
  {
    if names != [] {
      var t := names[1..];
      SumChannelsFailsIff(t, registry);
      assert forall i :: 1 <= i < |names| ==> names[i] == t[i - 1];
      if ChannelAttr(names[0]) !in registry {
        assert AllRegistered(names[..0], registry);
      } else if SumChannels(names, registry).Err? {
        var j :| 0 <= j < |t| && AllRegistered(t[..j], registry) &&
          ChannelAttr(t[j]) !in registry &&
          SumChannels(t, registry).error == MissingAttribute(ChannelAttr(t[j]));
        assert names[..j + 1] == [names[0]] + t[..j];
        assert AllRegistered(names[..j + 1], registry);
      }
    }
  }

  /** Whether the count succeeds, and its value, do not depend on the order of the names. */
  lemma SumChannelsOrderIndependent(a: seq<string>, b: seq<string>, registry: Registry)
    requires multiset(a) == multiset(b)
    ensures SumChannels(a, registry).Ok? <==> SumChannels(b, registry).Ok?
    ensures SumChannels(a, registry).Ok? ==> SumChannels(a, registry).value == SumChannels(b, registry).value
  {
    SumChannelsFailsIff(a, registry);
    SumChannelsFailsIff(b, registry);
    if AllRegistered(a, registry) {
      SameElementsRegistered(a, b, registry);
      PermutedTotal(a, b, registry);
    } else if AllRegistered(b, registry) {
      SameElementsRegistered(b, a, registry);
    }
  }

  lemma SameElementsRegistered(a: seq<string>, b: seq<string>, registry: Registry)
    requires multiset(a) == multiset(b) && AllRegistered(a, registry)
    ensures AllRegistered(b, registry)
  {
    forall i | 0 <= i < |b| ensures ChannelAttr(b[i]) in registry {
      assert b[i] in multiset(a);
      var k :| 0 <= k < |a| && a[k] == b[i];
    }
  }

  /** Taking one element out of a sequence takes it out of its multiset. */
  lemma RemoveAt(b: seq<string>, k: int)
    requires 0 <= k < |b|
    ensures multiset(b[..k] + b[k + 1..]) == multiset(b) - multiset{b[k]}
  {
    assert b == b[..k] + [b[k]] + b[k + 1..];
  }

  /** Counting with one registered name taken out: its value plus the count of the rest. */
  lemma TotalWithout(b: seq<string>, k: int, registry: Registry)
    requires 0 <= k < |b| && AllRegistered(b, registry)
    ensures AllRegistered(b[..k] + b[k + 1..], registry)
    ensures SumChannels(b, registry).Ok? && SumChannels(b[..k] + b[k + 1..], registry).Ok?
    ensures SumChannels(b, registry).value ==
      registry[ChannelAttr(b[k])] + SumChannels(b[..k] + b[k + 1..], registry).value
  {
    var x, rest := b[k], b[..k] + b[k + 1..];
    forall i | 0 <= i < |rest| ensures ChannelAttr(rest[i]) in registry {
      if i < k { assert rest[i] == b[i]; } else { assert rest[i] == b[i + 1]; }
    }
    SumChannelsFailsIff(b, registry);
    SumChannelsFailsIff(rest, registry);
    assert b == b[..k] + [x] + b[k + 1..];
    assert [x][1..] == [];
    SumChannelsAppend(b[..k] + [x], b[k + 1..], registry);
    SumChannelsAppend(b[..k], [x], registry);
    SumChannelsAppend(b[..k], b[k + 1..], registry);
  }

  /** When every name is registered, permuting the names keeps the total. */
  lemma {:induction false} PermutedTotal(a: seq<string>, b: seq<string>, registry: Registry)
    requires multiset(a) == multiset(b) && AllRegistered(a, registry) && AllRegistered(b, registry)
    ensures SumChannels(a, registry).Ok? && SumChannels(b, registry).Ok?
    ensures SumChannels(a, registry).value == SumChannels(b, registry).value
    decreases |a|
  {
    if a == [] {
      assert |b| == |multiset(b)| == 0;
    } else {
      var k := IndexOf(b, a[0]);
      var rest := b[..k] + b[k + 1..];
      TotalWithout(b, k, registry);
      TotalWithout(a, 0, registry);
      assert a[..0] + a[1..] == a[1..];
      assert multiset(a[1..]) == multiset(rest) by {
        RemoveAt(b, k);
        RemoveAt(a, 0);
      }
      PermutedTotal(a[1..], rest, registry);
    }
  }

  /** A position at which an element of the multiset occurs. */
  lemma IndexOf(b: seq<string>, x: string) returns (k: int)
    requires x in multiset(b)
    ensures 0 <= k < |b| && b[k] == x
  {
    k :| 0 <= k < |b| && b[k] == x;
  }

  /** Lookup is case-insensitive: names that upper-case alike count alike. */
  lemma {:induction false} SumChannelsCaseInsensitive(a: seq<string>, b: seq<string>, registry: Registry)
    requires |a| == |b| && forall i :: 0 <= i < |a| ==> Upper(a[i]) == Upper(b[i])
    ensures SumChannels(a, registry) == SumChannels(b, registry)
  {
    if a != [] {
      assert forall i :: 1 <= i < |a| ==> a[i] == a[1..][i - 1] && b[i] == b[1..][i - 1];
      SumChannelsCaseInsensitive(a[1..], b[1..], registry);
    }
  }

  /** In particular, upper-casing a name first changes nothing. */
  lemma UpperCasedNameCountsAlike(name: string, registry: Registry)
    ensures ParseNumChannels(Single(Upper(name)), registry) == ParseNumChannels(Single(name), registry)
  {
    UpperIdempotent(name);
    SumChannelsCaseInsensitive([Upper(name)], [name], registry);
  }

  /** With non-negative registered counts, a successful total is non-negative. */
  lemma {:induction false} SumChannelsNonNegative(names: seq<string>, registry: Registry)
    requires forall attr :: attr in registry ==> registry[attr] >= 0
    ensures SumChannels(names, registry).Ok? ==> SumChannels(names, registry).value >= 0
  {
    if names != [] {
      SumChannelsNonNegative(names[1..], registry);
    }
  }
}
