/** A run of `strings.Replace(message, find, replace, -1)` calls, one after the other, as
    the Discord side of the relay applies them to a message (bot/discord.go). */
module Rewrites {
  import opened Bytes

  /** A search string `strings.Replace` is called with: never empty in the relay. */
  type Find = s: seq<byte> | |s| > 0 witness [0]

  datatype Rewrite = Rewrite(find: Find, replace: seq<byte>)

  /** The rewrites applied in order, the first one first. */
  function ApplyAll(rs: seq<Rewrite>, msg: seq<byte>): seq<byte>
    decreases |rs|
  {
    if rs == [] then msg
    else ReplaceAll(ApplyAll(rs[..|rs| - 1], msg), rs[|rs| - 1].find, rs[|rs| - 1].replace)
  }

  /** The rewrites each element of `xs` contributes, in the order of `xs`. */
  function Concat<T>(xs: seq<T>, rule: T -> seq<Rewrite>): seq<Rewrite>
    decreases |xs|
  {
    if xs == [] then [] else Concat(xs[..|xs| - 1], rule) + rule(xs[|xs| - 1])
  }

  /** Every search string starts with `lead`. */
  predicate AllLead(rs: seq<Rewrite>, lead: byte)
  {
    forall j :: 0 <= j < |rs| ==> rs[j].find[0] == lead
  }

  /** Applying `a` and then `b` is applying `a + b`. */
  lemma {:induction false} ApplyAllAppend(a: seq<Rewrite>, b: seq<Rewrite>, msg: seq<byte>)
    ensures ApplyAll(a + b, msg) == ApplyAll(b, ApplyAll(a, msg))
    decreases |b|
  {
    if b == [] {
      assert a + b == a;
    } else {
      var b' := b[..|b| - 1];
      assert (a + b)[..|a + b| - 1] == a + b';
      assert (a + b)[|a + b| - 1] == b[|b| - 1];
      ApplyAllAppend(a, b', msg);
    }
  }

  /** One more rewrite at the end is one more `strings.Replace`. */
  lemma ApplyAllSnoc(rs: seq<Rewrite>, r: Rewrite, msg: seq<byte>)
    ensures ApplyAll(rs + [r], msg) == ReplaceAll(ApplyAll(rs, msg), r.find, r.replace)
  {
    assert (rs + [r])[..|rs + [r]| - 1] == rs;
  }

  /** Extending the list of elements by one appends that element's rewrites. */
  lemma ConcatStep<T>(xs: seq<T>, i: nat, rule: T -> seq<Rewrite>)
    requires i < |xs|
    ensures Concat(xs[..i + 1], rule) == Concat(xs[..i], rule) + rule(xs[i])
  {
    assert xs[..i + 1][..i] == xs[..i];
  }

  /** When every search string starts with a byte the message does not contain, nothing
      is replaced. */
  lemma {:induction false} ApplyAllMissingLead(rs: seq<Rewrite>, msg: seq<byte>, lead: byte)
    requires AllLead(rs, lead) && lead !in msg
    ensures ApplyAll(rs, msg) == msg
    decreases |rs|
  {
    if rs != [] {
      var rest := rs[..|rs| - 1];
      assert AllLead(rest, lead) by {
        forall j | 0 <= j < |rest| ensures rest[j].find[0] == lead {
          assert rest[j] == rs[j];
        }
      }
      ApplyAllMissingLead(rest, msg, lead);
      ReplaceAllMissingLead(msg, rs[|rs| - 1].find, rs[|rs| - 1].replace);
    }
  }

  /** Concatenated rewrites whose search strings all start with `lead` keep that property. */
  lemma {:induction false} ConcatAllLead<T>(xs: seq<T>, rule: T -> seq<Rewrite>, lead: byte)
    requires forall i :: 0 <= i < |xs| ==> AllLead(rule(xs[i]), lead)
    ensures AllLead(Concat(xs, rule), lead)
    decreases |xs|
  {
    if xs != [] {
      var init := xs[..|xs| - 1];
      assert forall i :: 0 <= i < |init| ==> init[i] == xs[i];
      ConcatAllLead(init, rule, lead);
      var a := Concat(init, rule);
      var b := rule(xs[|xs| - 1]);
      assert AllLead(b, lead);
      forall j | 0 <= j < |a + b| ensures (a + b)[j].find[0] == lead {
        if j < |a| {
          assert (a + b)[j] == a[j];
        } else {
          assert (a + b)[j] == b[j - |a|];
        }
      }
    }
  }

  /** A replacement that does not contain `b` does not bring it in. */
  lemma {:induction false} ReplaceAllKeepsOut(s: seq<byte>, f: Find, r: seq<byte>, b: byte)
    requires b !in s && b !in r
    ensures b !in ReplaceAll(s, f, r)
    decreases |s|
  {
    if |s| >= |f| {
      if s[..|f|] == f {
        ReplaceAllKeepsOut(s[|f|..], f, r, b);
      } else {
        ReplaceAllKeepsOut(s[1..], f, r, b);
      }
    }
  }
}
