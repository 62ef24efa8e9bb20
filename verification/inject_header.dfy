/** `FInjectHeaderLayer`: a set of headers merged into every request before
    it goes to the inner service, either overriding the request's own values
    or only filling in keys the request lacks. The layer's map is a header
    map without clashing keys, visited in its own order. */
module InjectHeader {
  import opened Wrappers
  import opened HttpService

  datatype InjectConfig = InjectConfig(headers: HeaderMap, overrideExisting: bool)

  /** The layer built with its default arguments. */
  const DefaultConfig: InjectConfig := InjectConfig([], false)

  /** The layer's `AddHeader`: `TMap::Add` on the injection set. */
  function AddToLayer(cfg: InjectConfig, name: string, value: string): (r: InjectConfig)
    ensures r.overrideExisting == cfg.overrideExisting
    ensures Find(r.headers, name) == Some(value)
    ensures forall q :: !KeyEq(name, q) ==> Find(r.headers, q) == Find(cfg.headers, q)
    ensures Unique(cfg.headers) ==> Unique(r.headers)
    ensures |r.headers| == |cfg.headers| + (if HasKey(cfg.headers, name) then 0 else 1)
  {
    forall q ensures Find(Add(cfg.headers, name, value), q) == if KeyEq(name, q) then Some(value) else Find(cfg.headers, q) {
      FindAfterAdd(cfg.headers, name, value, q);
    }
    InjectConfig(Add(cfg.headers, name, value), cfg.overrideExisting)
  }

  /** One pass of the merge loop for the pair `kv`. */
  function MergeStep(h: HeaderMap, kv: (string, string), overrideExisting: bool): (r: HeaderMap)
    ensures Unique(h) ==> Unique(r)
  {
    if overrideExisting then Assign(h, kv.0, kv.1)
    else if !HasKey(h, kv.0) then Add(h, kv.0, kv.1)
    else h
  }

  /** After one pass, keys not matching `kv`'s find what they found before; a
      matching key finds the injected value, unless override is off and the
      key was present. */
  lemma StepFind(h: HeaderMap, kv: (string, string), overrideExisting: bool, q: string)
    ensures Find(MergeStep(h, kv, overrideExisting), q) ==
              if KeyEq(kv.0, q) && (overrideExisting || !HasKey(h, kv.0)) then Some(kv.1) else Find(h, q)
  {
    FindAfterAdd(h, kv.0, kv.1, q);
  }

  /** The merged headers after the injected pairs `inj[..i]`. */
  function MergeHeaders(h: HeaderMap, inj: seq<(string, string)>, overrideExisting: bool): (r: HeaderMap)
    ensures Unique(h) ==> Unique(r)
    decreases |inj|
  {
    if |inj| == 0 then h
    else
      var n := |inj| - 1;
      MergeStep(MergeHeaders(h, inj[..n], overrideExisting), inj[n], overrideExisting)
  }

  /** With override on, a key finds the last injected value that matches it,
      and the request's value otherwise. */
  lemma {:induction false} MergeOverrideFind(h: HeaderMap, inj: seq<(string, string)>, q: string)
    ensures Find(MergeHeaders(h, inj, true), q) == if LastMatch(inj, q).Some? then LastMatch(inj, q) else Find(h, q)
    decreases |inj|
  {
    if |inj| > 0 {
      var n := |inj| - 1;
      MergeOverrideFind(h, inj[..n], q);
      StepFind(MergeHeaders(h, inj[..n], true), inj[n], true, q);
    }
  }

  /** With override off, a key the request has keeps the request's value, and
      otherwise it finds the first injected value that matches it. */
  lemma {:induction false} MergeKeepFind(h: HeaderMap, inj: seq<(string, string)>, q: string)
    ensures Find(MergeHeaders(h, inj, false), q) == if Find(h, q).Some? then Find(h, q) else Find(inj, q)
    decreases |inj|
  {
    if |inj| > 0 {
      var n := |inj| - 1;
      var p := inj[..n];
      MergeKeepFind(h, p, q);
      assert inj == p + [inj[n]];
      FindSnoc(p, inj[n], q);
      var m := MergeHeaders(h, p, false);
      var kv := inj[n];
      StepFind(m, kv, false, q);
      if KeyEq(kv.0, q) {
        KeyEqFind(m, kv.0, q);
      }
    }
  }

  /** Keys that match each other find the same value. */
  lemma KeyEqFind(h: HeaderMap, a: string, b: string)
    requires KeyEq(a, b)
    ensures Find(h, a) == Find(h, b)
  {
    forall j | 0 <= j < |h| ensures KeyEq(h[j].0, a) <==> KeyEq(h[j].0, b) {
    }
    var i := KeyIndex(h, a);
    if i >= 0 {
      KeyIndexIs(h, b, i);
    }
  }

  /** The merge loop of `FInjectHeaderService::Call`, visiting the injected
      pairs in order. */
  method MergeLoop(h: HeaderMap, inj: seq<(string, string)>, overrideExisting: bool) returns (r: HeaderMap)
    ensures r == MergeHeaders(h, inj, overrideExisting)
  {
    r := h;
    var i := 0;
    while i < |inj|
      invariant 0 <= i <= |inj|
      invariant r == MergeHeaders(h, inj[..i], overrideExisting)
    {
      assert inj[..i + 1][..i] == inj[..i];
      r := MergeStep(r, inj[i], overrideExisting);
      i := i + 1;
    }
    assert inj[..|inj|] == inj;
  }

  /** `FInjectHeaderService::Call`: the request handed to the inner service. */
  function Inject(req: HttpRequest, cfg: InjectConfig): (r: HttpRequest)
    ensures AgreeExcept(req, r, HeadersField)
    ensures Unique(req.Headers) ==> Unique(r.Headers)
  {
    WithHeaders(req, MergeHeaders(req.Headers, cfg.headers, cfg.overrideExisting))
  }

  /** What the forwarded request finds under any key: with override on, every
      injected key finds its injected value; with override off, keys the
      request already had keep its value and missing keys are added; keys
      that are not injected are untouched either way. */
  lemma InjectFind(req: HttpRequest, cfg: InjectConfig, q: string)
    requires Unique(cfg.headers)
    ensures cfg.overrideExisting && HasKey(cfg.headers, q) ==> Find(Inject(req, cfg).Headers, q) == Find(cfg.headers, q)
    ensures !cfg.overrideExisting && HasKey(req.Headers, q) ==> Find(Inject(req, cfg).Headers, q) == Find(req.Headers, q)
    ensures !cfg.overrideExisting && !HasKey(req.Headers, q) ==> Find(Inject(req, cfg).Headers, q) == Find(cfg.headers, q)
    ensures !HasKey(cfg.headers, q) ==> Find(Inject(req, cfg).Headers, q) == Find(req.Headers, q)
  {
    LastMatchUnique(cfg.headers, q);
    if cfg.overrideExisting {
      MergeOverrideFind(req.Headers, cfg.headers, q);
    } else {
      MergeKeepFind(req.Headers, cfg.headers, q);
    }
  }

  /** The forwarded request's keys are the request's keys together with the
      injected keys. */
  lemma InjectKeys(req: HttpRequest, cfg: InjectConfig, q: string)
    requires Unique(cfg.headers)
    ensures HasKey(Inject(req, cfg).Headers, q) <==> HasKey(req.Headers, q) || HasKey(cfg.headers, q)
  {
    InjectFind(req, cfg, q);
  }

  /** The layer's documented example: `X-Auth: Token` with override on
      replaces a request's `x-auth` value and keeps its spelling. */
  lemma OverrideExample(req: HttpRequest)
    requires req.Headers == [("x-auth", "old")]
    ensures Inject(req, AddToLayer(InjectConfig([], true), "X-Auth", "Token")).Headers == [("x-auth", "Token")]
  {
    assert KeyEq("x-auth", "X-Auth");
    var inj := Add([], "X-Auth", "Token");
    assert inj == [("X-Auth", "Token")];
    assert inj[..0] == [];
    KeyIndexIs(req.Headers, "X-Auth", 0);
  }
}
