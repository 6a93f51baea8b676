/** How a function's environment, labels and annotations are written into a
    container and read back, so that it can be deployed again elsewhere
    (pkg/provider/handlers/deploy.go and functions.go). */
module Environment {
  import opened Strings

  datatype Env = Env(vars: map<string, string>, fprocess: string)

  const FPROCESS: string := "fprocess"
  const PATH: string := "PATH"

  // ------------------------------------------------------------------------ reading

  /** One element of the process environment; of several '=' only the first two parts count. */
  function ReadOne(acc: Env, e: string): Env {
    var kv := Split(e, '=');
    if |kv| <= 1 then acc
    else if kv[0] == PATH then acc
    else if kv[0] == FPROCESS then acc.(fprocess := kv[1])
    else acc.(vars := acc.vars[kv[0] := kv[1]])
  }

  function Read(es: seq<string>): Env {
    if es == [] then Env(map[], "") else ReadOne(Read(es[..|es| - 1]), es[|es| - 1])
  }

  lemma ReadUpTo(es: seq<string>, i: nat)
    requires i < |es|
    ensures Read(es[..i + 1]) == ReadOne(Read(es[..i]), es[i])
  {
    assert es[..i + 1][..i] == es[..i];
  }

  method ReadEnvFromProcessEnv(env: seq<string>) returns (foundEnv: map<string, string>, fprocess: string)
    ensures Env(foundEnv, fprocess) == Read(env)
  {
    foundEnv, fprocess := map[], "";
    for i := 0 to |env|
      invariant Env(foundEnv, fprocess) == Read(env[..i])
    {
      ReadUpTo(env, i);
      var kv := Split(env[i], '=');
      PartsPlain(env[i], '=');
      if |kv| == 1 || kv[0] == PATH {
        continue;
      }
      if kv[0] == FPROCESS {
        fprocess := kv[1];
        continue;
      }
      foundEnv := foundEnv[kv[0] := kv[1]];
    }
    assert env[..|env|] == env;
  }

  // ---------------------------------------------------------------------- preparing

  /** One variable as it stands in the container's environment. */
  function Pair(k: string, v: string): string { k + (['='] + v) }

  /** The variables in the order ks. */
  function Pairs(ks: seq<string>, vars: map<string, string>): seq<string>
    requires forall i :: 0 <= i < |ks| ==> ks[i] in vars
  {
    if ks == [] then [] else Pairs(ks[..|ks| - 1], vars) + [Pair(ks[|ks| - 1], vars[ks[|ks| - 1]])]
  }

  /** A variable called fprocess is added as its bare value. */
  function Tail(envProcess: string, vars: map<string, string>): seq<string> {
    if FPROCESS in vars then [vars[FPROCESS]]
    else if envProcess != "" then [Pair(FPROCESS, envProcess)]
    else []
  }

  ghost predicate Lists(ks: seq<string>, keys: set<string>) {
    && (forall i, j :: 0 <= i < j < |ks| ==> ks[i] != ks[j])
    && (forall k :: k in ks <==> k in keys)
  }

  lemma ListsMore(ks: seq<string>, keys: set<string>, k: string)
    requires Lists(ks, keys) && k !in keys
    ensures Lists(ks + [k], keys + {k})
  {
    assert k !in ks;
  }

  /** es is a possible result of preparing, for some order of the variables. */
  ghost predicate IsPrepared(envProcess: string, vars: map<string, string>, es: seq<string>) {
    exists ks: seq<string> :: PreparedBy(envProcess, vars, es, ks)
  }

  ghost predicate PreparedBy(envProcess: string, vars: map<string, string>, es: seq<string>, ks: seq<string>) {
    && Lists(ks, vars.Keys - {FPROCESS})
    && (forall i :: 0 <= i < |ks| ==> ks[i] in vars)
    && es == Pairs(ks, vars) + Tail(envProcess, vars)
  }

  method PrepareEnv(envProcess: string, reqEnvVars: map<string, string>) returns (envs: seq<string>)
    ensures IsPrepared(envProcess, reqEnvVars, envs)
  {
    envs := [];
    var fprocessFound := |envProcess| > 0;
    var fprocess := Pair(FPROCESS, envProcess);
    var todo := reqEnvVars.Keys;
    ghost var ks: seq<string> := [];
    while todo != {}
      invariant todo <= reqEnvVars.Keys
      invariant Lists(ks, reqEnvVars.Keys - todo - {FPROCESS})
      invariant forall i :: 0 <= i < |ks| ==> ks[i] in reqEnvVars
      invariant envs == Pairs(ks, reqEnvVars)
      invariant FPROCESS in reqEnvVars && FPROCESS !in todo ==> fprocessFound && fprocess == reqEnvVars[FPROCESS]
      invariant FPROCESS !in reqEnvVars || FPROCESS in todo ==>
                  fprocessFound == (|envProcess| > 0) && fprocess == Pair(FPROCESS, envProcess)
    {
      var k :| k in todo;
      if k == FPROCESS {
        fprocessFound := true;
        fprocess := reqEnvVars[k];
        assert reqEnvVars.Keys - todo - {FPROCESS} == reqEnvVars.Keys - (todo - {k}) - {FPROCESS};
      } else {
        assert (ks + [k])[..|ks|] == ks;
        ListsMore(ks, reqEnvVars.Keys - todo - {FPROCESS}, k);
        assert reqEnvVars.Keys - todo - {FPROCESS} + {k} == reqEnvVars.Keys - (todo - {k}) - {FPROCESS};
        ks := ks + [k];
        envs := envs + [Pair(k, reqEnvVars[k])];
      }
      todo := todo - {k};
    }
    assert Lists(ks, reqEnvVars.Keys - {FPROCESS});
    if fprocessFound {
      envs := envs + [fprocess];
    }
    assert PreparedBy(envProcess, reqEnvVars, envs, ks);
  }

  // --------------------------------------------------------------------- round trip

  /** What reading can return: no '=' anywhere, and no variable called PATH or fprocess. */
  predicate Clean(env: Env) {
    && '=' !in env.fprocess
    && FPROCESS !in env.vars && PATH !in env.vars
    && forall k :: k in env.vars ==> '=' !in k && '=' !in env.vars[k]
  }

  lemma {:induction false} ReadIsClean(es: seq<string>)
    ensures Clean(Read(es))
  {
    if es != [] {
      ReadIsClean(es[..|es| - 1]);
      PartsPlain(es[|es| - 1], '=');
    }
  }

  lemma SplitPair(k: string, v: string)
    requires '=' !in k && '=' !in v
    ensures Split(Pair(k, v), '=') == [k, v]
  {
    SplitAt(k, '=', v);
    SplitPlain(v, '=');
  }

  lemma ReadPair(acc: Env, k: string, v: string)
    requires '=' !in k && '=' !in v && k != PATH && k != FPROCESS
    ensures ReadOne(acc, Pair(k, v)) == acc.(vars := acc.vars[k := v])
  {
    SplitPair(k, v);
  }

  lemma ReadProcess(acc: Env, v: string)
    requires '=' !in v
    ensures ReadOne(acc, Pair(FPROCESS, v)) == acc.(fprocess := v)
  {
    SplitPair(FPROCESS, v);
  }

  /** What is left of a text after its first value: nothing, or an equals sign and more. */
  predicate IsRest(rest: string) {
    rest == [] || rest[0] == '='
  }

  lemma MoreParts(k: string, v: string, more: string)
    requires '=' !in k && '=' !in v
    ensures Split(Pair(k, v + (['='] + more)), '=') == [k] + ([v] + Split(more, '='))
  {
    SplitAt(k, '=', v + (['='] + more));
    SplitAt(v, '=', more);
  }

  lemma FirstTwoParts(k: string, v: string, rest: string)
    requires '=' !in k && '=' !in v && IsRest(rest)
    ensures var kv := Split(Pair(k, v + rest), '='); |kv| >= 2 && kv[0] == k && kv[1] == v
  {
    if rest == [] {
      assert v + rest == v;
      SplitPair(k, v);
    } else {
      assert rest == ['='] + rest[1..];
      MoreParts(k, v, rest[1..]);
    }
  }

  /** Of an element k=v=... exactly k and v are read: PATH is skipped, fprocess is
      the process, and any other k is a variable with value v. */
  lemma ReadsFirstTwo(acc: Env, k: string, v: string, rest: string)
    requires '=' !in k && '=' !in v && IsRest(rest)
    ensures var r := ReadOne(acc, k + (['='] + (v + rest)));
            if k == "PATH" then r == acc
            else if k == "fprocess" then r.fprocess == v && r.vars == acc.vars
            else r.fprocess == acc.fprocess && r.vars == acc.vars[k := v]
  {
    FirstTwoParts(k, v, rest);
  }

  /** An element without an equals sign is skipped. */
  lemma SkipsPlain(acc: Env, e: string)
    requires '=' !in e
    ensures ReadOne(acc, e) == acc
  {
    SplitPlain(e, '=');
  }

  /** Every variable but fprocess is written as a pair; a variable called fprocess
      comes last as its bare value, else the process under its name, else nothing. */
  lemma PreparedContents(envProcess: string, vars: map<string, string>, es: seq<string>)
    requires IsPrepared(envProcess, vars, es)
    ensures forall k :: k in vars && k != "fprocess" ==> k + (['='] + vars[k]) in es
    ensures "fprocess" in vars ==> es != [] && es[|es| - 1] == vars["fprocess"]
    ensures "fprocess" !in vars && envProcess != "" ==> es != [] && es[|es| - 1] == "fprocess" + (['='] + envProcess)
    ensures |es| == |vars.Keys - {"fprocess"}| + (if "fprocess" in vars || envProcess != "" then 1 else 0)
  {
    var ks :| PreparedBy(envProcess, vars, es, ks);
    PairsAre(ks, vars);
    ListsCard(ks, vars.Keys - {FPROCESS});
    var pairs := Pairs(ks, vars);
    forall k | k in vars && k != FPROCESS ensures Pair(k, vars[k]) in es {
      assert k in vars.Keys - {FPROCESS};
      var i :| 0 <= i < |ks| && ks[i] == k;
      assert es[i] == pairs[i];
    }
  }

  lemma {:induction false} PairsAre(ks: seq<string>, vars: map<string, string>)
    requires forall i :: 0 <= i < |ks| ==> ks[i] in vars
    ensures |Pairs(ks, vars)| == |ks|
    ensures forall i :: 0 <= i < |ks| ==> Pairs(ks, vars)[i] == Pair(ks[i], vars[ks[i]])
  {
    if ks != [] {
      PairsAre(ks[..|ks| - 1], vars);
    }
  }

  lemma {:induction false} ListsCard(ks: seq<string>, keys: set<string>)
    requires Lists(ks, keys)
    ensures |ks| == |keys|
  {
    if ks == [] {
      assert keys == {};
    } else {
      var init, last := ks[..|ks| - 1], ks[|ks| - 1];
      assert ks == init + [last];
      forall k ensures k in init <==> k in keys - {last} {
        assert k in ks <==> k in init || k == last;
      }
      ListsCard(init, keys - {last});
    }
  }

  lemma {:induction false} ReadPairs(ks: seq<string>, env: Env)
    requires Clean(env) && forall i :: 0 <= i < |ks| ==> ks[i] in env.vars
    requires forall i, j :: 0 <= i < j < |ks| ==> ks[i] != ks[j]
    ensures var r := Read(Pairs(ks, env.vars));
            && r.fprocess == ""
            && (forall k :: k in r.vars <==> k in ks)
            && (forall k :: k in r.vars ==> k in env.vars && r.vars[k] == env.vars[k])
  {
    if ks != [] {
      var init, k := ks[..|ks| - 1], ks[|ks| - 1];
      ReadPairs(init, env);
      var es := Pairs(ks, env.vars);
      assert es[..|es| - 1] == Pairs(init, env.vars) && es[|es| - 1] == Pair(k, env.vars[k]);
      ReadPair(Read(Pairs(init, env.vars)), k, env.vars[k]);
    }
  }

  lemma ReadAllPairs(ks: seq<string>, env: Env)
    requires Clean(env) && Lists(ks, env.vars.Keys - {FPROCESS}) && forall i :: 0 <= i < |ks| ==> ks[i] in env.vars
    ensures Read(Pairs(ks, env.vars)) == Env(env.vars, "")
  {
    ReadPairs(ks, env);
    SameTable(ks, env.vars, Read(Pairs(ks, env.vars)).vars);
  }

  lemma SameTable(ks: seq<string>, vars: map<string, string>, read: map<string, string>)
    requires FPROCESS !in vars && Lists(ks, vars.Keys - {FPROCESS})
    requires forall k :: k in read <==> k in ks
    requires forall k :: k in read ==> k in vars && read[k] == vars[k]
    ensures read == vars
  {
    forall k ensures k in read <==> k in vars {
      assert k in vars <==> k in vars.Keys - {FPROCESS};
    }
  }

  lemma ReadMore(es: seq<string>, e: string)
    ensures Read(es + [e]) == ReadOne(Read(es), e)
  {
    assert (es + [e])[..|es|] == es;
  }

  /** Writing a clean environment and reading it gives it back, whatever the order. */
  lemma CleanRoundTrip(env: Env, es: seq<string>)
    requires Clean(env) && IsPrepared(env.fprocess, env.vars, es)
    ensures Read(es) == env
  {
    var ks :| PreparedBy(env.fprocess, env.vars, es, ks);
    ReadAllPairs(ks, env);
    var pairs := Pairs(ks, env.vars);
    if env.fprocess == "" {
      assert es == pairs;
    } else {
      ReadMore(pairs, Pair(FPROCESS, env.fprocess));
      ReadProcess(Env(env.vars, ""), env.fprocess);
    }
  }

  /** An environment survives being written and read back exactly when it has no
      '=' in any key, value or process, and no variable called PATH or fprocess. */
  lemma RoundTripIff(env: Env, es: seq<string>)
    requires IsPrepared(env.fprocess, env.vars, es)
    ensures Read(es) == env <==> Clean(env)
  {
    if Clean(env) {
      CleanRoundTrip(env, es);
    }
    ReadIsClean(es);
  }

  /** A value with an equals sign does not survive. */
  lemma EqualsSignIsLost(es: seq<string>)
    requires IsPrepared("", map["K" := "a=b"], es)
    ensures Read(es) != Env(map["K" := "a=b"], "")
  {
    var env := Env(map["K" := "a=b"], "");
    RoundTripIff(env, es);
    assert "a=b"[1] == '=';
    assert '=' in env.vars["K"];
  }

  /** Deploying again from what was read back is stable, for every process environment. */
  lemma RedeployIsStable(found: seq<string>, es: seq<string>)
    requires IsPrepared(Read(found).fprocess, Read(found).vars, es)
    ensures Read(es) == Read(found)
  {
    ReadIsClean(found);
    CleanRoundTrip(Read(found), es);
  }
}

module Labels {
  import opened Strings

  const ANNOTATION_PREFIX: string := "com.openfaas.annotations."

  /** An annotation and a label claim the same container label. */
  ghost predicate Collides(p: string, labels: map<string, string>, annotations: map<string, string>) {
    exists k :: k in annotations && p + k in labels
  }

  /** The annotations as container labels, under the prefix. */
  function Prefixed(p: string, annotations: map<string, string>): (r: map<string, string>)
    ensures forall l :: l in r <==> p <= l && l[|p|..] in annotations
    ensures forall l :: l in r ==> r[l] == annotations[l[|p|..]]
  {
    var keys := set k | k in annotations :: p + k;
    assert forall l :: l in keys <==> p <= l && l[|p|..] in annotations by {
      forall l ensures l in keys <==> p <= l && l[|p|..] in annotations {
        if l in keys {
          var k :| k in annotations && l == p + k;
          assert l[|p|..] == k;
        } else if p <= l {
          assert l == p + l[|p|..];
        }
      }
    }
    map l | l in keys :: annotations[l[|p|..]]
  }

  /** Fails exactly on a collision. */
  method BuildLabels(labels: map<string, string>, annotations: map<string, string>)
    returns (r: Option<map<string, string>>)
    ensures r.None? <==> Collides(ANNOTATION_PREFIX, labels, annotations)
    ensures r.Some? ==> r.value == labels + Prefixed(ANNOTATION_PREFIX, annotations)
  {
    r := Build(ANNOTATION_PREFIX, labels, annotations);
  }

  lemma PrefixInjective(p: string, a: string, b: string)
    ensures p + a == p + b ==> a == b
  {
    assert (p + a)[|p|..] == a && (p + b)[|p|..] == b;
  }

  method Build(p: string, labels: map<string, string>, annotations: map<string, string>)
    returns (r: Option<map<string, string>>)
    ensures r.None? <==> Collides(p, labels, annotations)
    ensures r.Some? ==> r.value == labels + Prefixed(p, annotations)
  {
    var result := labels;
    var todo := annotations.Keys;
    while todo != {}
      invariant todo <= annotations.Keys
      invariant forall k :: k in annotations && k !in todo ==> p + k !in labels
      invariant forall l :: l in result <==> l in labels || (p <= l && l[|p|..] in annotations.Keys - todo)
      invariant forall l :: l in labels ==> result[l] == labels[l]
      invariant forall l :: l in result && l !in labels ==> result[l] == annotations[l[|p|..]]
    {
      var k :| k in todo;
      var key := p + k;
      assert key[|p|..] == k && p <= key;
      if key in result {
        assert key in labels;
        return None;
      }
      forall l | p <= l && l[|p|..] == k ensures l == key {
        assert l == p + l[|p|..];
      }
      result := result[key := annotations[k]];
      todo := todo - {k};
    }
    MergedIs(p, labels, annotations, result);
    return Some(result);
  }

  lemma MergedIs(p: string, labels: map<string, string>, annotations: map<string, string>, result: map<string, string>)
    requires forall k :: k in annotations ==> p + k !in labels
    requires forall l :: l in result <==> l in labels || (p <= l && l[|p|..] in annotations)
    requires forall l :: l in labels ==> result[l] == labels[l]
    requires forall l :: l in result && l !in labels ==> result[l] == annotations[l[|p|..]]
    ensures result == labels + Prefixed(p, annotations)
  {
    var added := Prefixed(p, annotations);
    forall l | l in added ensures l !in labels {
      assert l == p + l[|p|..];
    }
  }

  // ---------------------------------------------------------------------- splitting

  function PlainLabels(p: string, ctr: map<string, string>): map<string, string> {
    map k | k in ctr && !(p <= k) :: ctr[k]
  }

  function Annotations(p: string, ctr: map<string, string>): (r: map<string, string>)
    ensures forall k :: k in r <==> p + k in ctr
    ensures forall k :: k in r ==> r[k] == ctr[p + k]
  {
    var keys := set l | l in ctr && p <= l :: l[|p|..];
    assert forall k :: k in keys <==> p + k in ctr by {
      forall k ensures k in keys <==> p + k in ctr {
        assert (p + k)[|p|..] == k;
        if k in keys {
          var l :| l in ctr && p <= l && l[|p|..] == k;
          assert l == p + k;
        }
      }
    }
    map k | k in keys :: ctr[p + k]
  }

  method BuildLabelsAndAnnotations(ctrLabels: map<string, string>)
    returns (labels: map<string, string>, annotations: map<string, string>)
    ensures labels == PlainLabels(ANNOTATION_PREFIX, ctrLabels)
    ensures annotations == Annotations(ANNOTATION_PREFIX, ctrLabels)
  {
    labels, annotations := SplitLabels(ANNOTATION_PREFIX, ctrLabels);
  }

  method SplitLabels(p: string, ctr: map<string, string>)
    returns (labels: map<string, string>, annotations: map<string, string>)
    ensures labels == PlainLabels(p, ctr) && annotations == Annotations(p, ctr)
  {
    labels, annotations := map[], map[];
    var todo := ctr.Keys;
    while todo != {}
      invariant todo <= ctr.Keys
      invariant forall k :: k in labels <==> k in ctr && k !in todo && !(p <= k)
      invariant forall k :: k in labels ==> labels[k] == ctr[k]
      invariant forall k :: k in annotations <==> p + k in ctr && p + k !in todo
      invariant forall k :: k in annotations ==> annotations[k] == ctr[p + k]
    {
      var l :| l in todo;
      if p <= l {
        var k := l[|p|..];
        assert p + k == l;
        forall j ensures p + j == l <==> j == k {
          PrefixInjective(p, j, k);
        }
        annotations := annotations[k := ctr[l]];
      } else {
        forall j ensures p + j != l {
          assert p <= p + j;
        }
        labels := labels[l := ctr[l]];
      }
      todo := todo - {l};
    }
  }

  // --------------------------------------------------------------------- round trips

  /** Splitting any container labels and building them again never collides and
      gives the same labels. */
  lemma SplitThenBuild(p: string, ctr: map<string, string>)
    ensures !Collides(p, PlainLabels(p, ctr), Annotations(p, ctr))
    ensures PlainLabels(p, ctr) + Prefixed(p, Annotations(p, ctr)) == ctr
  {
    var labels, annotations := PlainLabels(p, ctr), Annotations(p, ctr);
    forall k | k in annotations ensures p + k !in labels {
      assert p <= p + k;
    }
    forall l | l in ctr && p <= l ensures l[|p|..] in annotations {
      assert l == p + l[|p|..];
    }
    forall l | p <= l && l[|p|..] in annotations ensures l in ctr && ctr[l] == annotations[l[|p|..]] {
      assert l == p + l[|p|..];
    }
    MergedIs(p, labels, annotations, ctr);
  }

  lemma PlainAfterBuild(p: string, labels: map<string, string>, annotations: map<string, string>)
    requires forall l :: l in labels ==> !(p <= l)
    ensures PlainLabels(p, labels + Prefixed(p, annotations)) == labels
  {
  }

  lemma AnnotationsAfterBuild(p: string, labels: map<string, string>, annotations: map<string, string>)
    requires forall l :: l in labels ==> !(p <= l)
    ensures Annotations(p, labels + Prefixed(p, annotations)) == annotations
  {
    var ctr := labels + Prefixed(p, annotations);
    forall k ensures k in Annotations(p, ctr) <==> k in annotations {
      assert p <= p + k && (p + k)[|p|..] == k;
    }
    forall k | k in annotations ensures Annotations(p, ctr)[k] == annotations[k] {
      assert p <= p + k && (p + k)[|p|..] == k;
    }
  }

  /** Without a collision, building and splitting gives back labels and
      annotations exactly when no label starts with the prefix. */
  lemma BuildThenSplitIff(p: string, labels: map<string, string>, annotations: map<string, string>)
    requires !Collides(p, labels, annotations)
    ensures (PlainLabels(p, labels + Prefixed(p, annotations)) == labels
             && Annotations(p, labels + Prefixed(p, annotations)) == annotations)
       <==> forall l :: l in labels ==> !(p <= l)
  {
    if forall l :: l in labels ==> !(p <= l) {
      PlainAfterBuild(p, labels, annotations);
      AnnotationsAfterBuild(p, labels, annotations);
    } else {
      var l :| l in labels && p <= l;
      assert l !in PlainLabels(p, labels + Prefixed(p, annotations));
    }
  }

  /** A label under the prefix comes back as an annotation. */
  lemma PrefixedLabelMoves()
    ensures var p, labels := ANNOTATION_PREFIX, map["com.openfaas.annotations.k" := "v"];
            && !Collides(p, labels, map[])
            && PlainLabels(p, labels + Prefixed(p, map[])) != labels
            && "k" in Annotations(p, labels + Prefixed(p, map[]))
  {
    assert ANNOTATION_PREFIX + "k" == "com.openfaas.annotations.k";
    PrefixMoves(ANNOTATION_PREFIX, "k", "v");
  }

  lemma PrefixMoves(p: string, k: string, v: string)
    ensures var labels := map[p + k := v];
            && !Collides(p, labels, map[])
            && PlainLabels(p, labels + Prefixed(p, map[])) != labels
            && k in Annotations(p, labels + Prefixed(p, map[]))
  {
    var labels := map[p + k := v];
    assert p <= p + k && p + k in labels;
    assert p + k !in PlainLabels(p, labels + Prefixed(p, map[]));
  }
}
