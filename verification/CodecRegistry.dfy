/** The codec registry of codecs.rs: normalised names, a search path and a cache in front of it. */
module CodecRegistry {

  // ---------- names ----------

  predicate IsUpper(c: char) { 'A' <= c <= 'Z' }

  /** ASCII letters, digits and the dot make up words; everything else separates them. */
  predicate InWord(c: char): (b: bool)
    ensures b <==>
      0x41 <= c as int <= 0x5A || 0x61 <= c as int <= 0x7A || 0x30 <= c as int <= 0x39 || c as int == 0x2E
  {
    'a' <= c <= 'z' || IsUpper(c) || '0' <= c <= '9' || c == '.'
  }

  function ToLower(c: char): (l: char)
    ensures InWord(c) ==> InWord(l) && !IsUpper(l)
    ensures !IsUpper(c) ==> l == c
    ensures IsUpper(c) ==> 'a' <= l <= 'z' && l as int - 'a' as int == c as int - 'A' as int
  {
    if IsUpper(c) then (c as int + 32) as char else c
  }

  function Lower(s: string): (l: string)
    ensures |l| == |s| && forall i | 0 <= i < |s| :: l[i] == ToLower(s[i])
  {
    if s == "" then "" else [ToLower(s[0])] + Lower(s[1..])
  }

  /** The length of the word that s starts with. */
  function WordLength(s: string): (n: nat)
    ensures n <= |s| && (forall i | 0 <= i < n :: InWord(s[i])) && (n < |s| ==> !InWord(s[n]))
  {
    if s == "" || !InWord(s[0]) then 0 else 1 + WordLength(s[1..])
  }

  /** The words of a name, in lower case. */
  function Words(s: string): seq<string>
    decreases |s|
  {
    var n := WordLength(s);
    if s == "" then []
    else if n == 0 then Words(s[1..])
    else [Lower(s[..n])] + Words(s[n..])
  }

  function Glue(a: string, b: string): string {
    if b == "" then a else if a == "" then b else a + "_" + b
  }

  function JoinWords(words: seq<string>): string {
    if words == [] then "" else Glue(words[0], JoinWords(words[1..]))
  }

  /** The normal form: the words, joined by single underscores. */
  function Normal(s: string): string { JoinWords(Words(s)) }

  predicate NeedsTransform(s: string) { exists c <- s :: IsUpper(c) || !InWord(c) }

  /** What the loop still makes of the rest. */
  function Continue(out: string, punct: bool, rest: string): string
    decreases |rest|
  {
    if rest == "" then out
    else if InWord(rest[0]) then
      Continue(out + (if punct && out != "" then "_" else "") + [ToLower(rest[0])], false, rest[1..])
    else Continue(out, true, rest[1..])
  }

  /** `normalize_encoding_name`. */
  method NormalizeEncodingName(encoding: string) returns (r: string)
    ensures r == Normal(encoding)
  {
    if !NeedsTransform(encoding) {
      AlreadyNormal(encoding);
      return encoding;
    }
    ContinueIsGlue("", false, encoding);
    var punct := false;
    r := "";
    assert encoding[0..] == encoding;
    for i := 0 to |encoding|
      invariant Continue(r, punct, encoding[i..]) == Normal(encoding)
    {
      var c := encoding[i];
      assert encoding[i..][0] == c && encoding[i..][1..] == encoding[i + 1..];
      if InWord(c) {
        assert r + "" == r;
        if punct && r != "" {
          r := r + "_";
        }
        r := r + [ToLower(c)];
        punct := false;
      } else {
        punct := true;
      }
    }
  }

  /** Between words the rest is glued on; inside a word its beginning still belongs to the word. */
  lemma {:induction false} ContinueIsGlue(out: string, punct: bool, rest: string)
    ensures punct || out == "" ==> Continue(out, punct, rest) == Glue(out, JoinWords(Words(rest)))
    ensures !punct && out != "" ==>
      Continue(out, punct, rest) ==
        Glue(out + Lower(rest[..WordLength(rest)]), JoinWords(Words(rest[WordLength(rest)..])))
    decreases |rest|
  {
    if rest == "" {
      assert out + "" == out;
    } else if !InWord(rest[0]) {
      ContinueIsGlue(out, true, rest[1..]);
      assert rest[..0] == "" && rest[0..] == rest && out + "" == out;
    } else {
      hide Words, JoinWords, WordLength, Lower, Glue;
      var n := WordLength(rest);
      var more := out + (if punct && out != "" then "_" else "") + [ToLower(rest[0])];
      WordStep(rest);
      ContinueIsGlue(more, false, rest[1..]);
      GlueWord(out, punct, Lower(rest[..n]), rest[0], Lower(rest[1..][..n - 1]), JoinWords(Words(rest[n..])));
    }
  }

  lemma WordStep(rest: string)
    requires rest != "" && InWord(rest[0])
    ensures var n := WordLength(rest);
      && n == 1 + WordLength(rest[1..]) && rest[1..][n - 1..] == rest[n..]
      && Lower(rest[..n]) == [ToLower(rest[0])] + Lower(rest[1..][..n - 1])
      && JoinWords(Words(rest)) == Glue(Lower(rest[..n]), JoinWords(Words(rest[n..])))
  {
    hide JoinWords, Words, Lower, WordLength;
    var n := WordLength(rest);
    WordSlices(rest);
    WordsStep(rest);
    JoinStep(Lower(rest[..n]), Words(rest[n..]));
  }

  lemma WordSlices(rest: string)
    requires rest != "" && InWord(rest[0])
    ensures var n := WordLength(rest);
      && n == 1 + WordLength(rest[1..]) && rest[1..][n - 1..] == rest[n..]
      && Lower(rest[..n]) == [ToLower(rest[0])] + Lower(rest[1..][..n - 1])
  {
    hide Lower;
    var n := WordLength(rest);
    assert rest[..n][1..] == rest[1..][..n - 1];
    LowerStep(rest[..n]);
  }

  lemma LowerStep(s: string)
    requires s != ""
    ensures Lower(s) == [ToLower(s[0])] + Lower(s[1..])
  {}

  lemma WordsStep(rest: string)
    requires rest != "" && InWord(rest[0])
    ensures var n := WordLength(rest); Words(rest) == [Lower(rest[..n])] + Words(rest[n..])
  {}

  lemma JoinStep(w: string, words: seq<string>)
    ensures JoinWords([w] + words) == Glue(w, JoinWords(words))
  {
    assert ([w] + words)[1..] == words;
  }

  lemma GlueWord(out: string, punct: bool, word: string, c: char, tail: string, others: string)
    requires word == [ToLower(c)] + tail
    ensures var more := out + (if punct && out != "" then "_" else "") + [ToLower(c)] + tail;
      Glue(more, others) == if punct || out == "" then Glue(out, Glue(word, others)) else Glue(out + word, others)
  {
    var more := out + (if punct && out != "" then "_" else "") + [ToLower(c)] + tail;
    if out == "" {
      assert more == word;
    } else if punct {
      assert more == out + "_" + word;
      assert out + "_" + word + "_" + others == out + "_" + (word + "_" + others);
    } else {
      assert more == out + word;
    }
  }

  lemma {:induction false} WholeWord(s: string)
    requires !NeedsTransform(s)
    ensures WordLength(s) == |s| && Lower(s) == s
  {
    if s != "" {
      assert s[0] in s;
      WholeWord(s[1..]);
    }
  }

  lemma AlreadyNormal(s: string)
    requires !NeedsTransform(s)
    ensures Normal(s) == s
  {
    if s != "" {
      var n := WordLength(s);
      WholeWord(s);
      assert s[..n] == s && s[n..] == "";
      assert Words(s[n..]) == [];
      assert Words(s) == [s];
      JoinStep(s, []);
      assert [s] + [] == [s];
    }
  }

  ghost predicate IsWord(w: string) {
    w != "" && forall c <- w :: InWord(c) && !IsUpper(c)
  }

  lemma {:induction false} WordsAreWords(s: string)
    ensures forall w <- Words(s) :: IsWord(w)
    decreases |s|
  {
    if s != "" {
      var n := WordLength(s);
      WordsAreWords(s[if n == 0 then 1 else n..]);
    }
  }

  /** Joined words are found again. */
  lemma {:induction false} WordsOfJoined(words: seq<string>)
    requires forall w <- words :: IsWord(w)
    ensures Words(JoinWords(words)) == words
  {
    if words != [] {
      var w, others := words[0], JoinWords(words[1..]);
      assert IsWord(w);
      WordsOfJoined(words[1..]);
      if others == "" {
        assert words[1..] == [];
        FirstWord(w, "");
        assert w + "" == w;
      } else {
        FirstWord(w, "_" + others);
        assert w + ("_" + others) == w + "_" + others;
        assert ("_" + others)[1..] == others;
      }
    }
  }

  lemma FirstWord(w: string, rest: string)
    requires IsWord(w) && (rest != "" ==> !InWord(rest[0]))
    ensures Words(w + rest) == [w] + Words(rest)
  {
    var s := w + rest;
    var n := WordLength(s);
    assert forall i | 0 <= i < |w| :: s[i] == w[i] && w[i] in w;
    if |w| < |s| { assert s[|w|] == rest[0]; }
    assert n == |w|;
    assert s[..n] == w && s[n..] == rest;
    assert Lower(w) == w;
  }

  /** Normalising twice is normalising once, and names are alike exactly when their words are. */
  lemma NormalForms(a: string, b: string)
    ensures Normal(Normal(a)) == Normal(a)
    ensures Normal(a) == Normal(b) <==> Words(a) == Words(b)
  {
    WordsAreWords(a);
    WordsOfJoined(Words(a));
    WordsAreWords(b);
    WordsOfJoined(Words(b));
  }

  /** A name that is one word is only put in lower case. */
  lemma NormalOfWord(w: string)
    requires forall c <- w :: InWord(c)
    ensures |Normal(w)| == |w| && forall i | 0 <= i < |w| :: Normal(w)[i] == ToLower(w[i])
    ensures forall i | 0 <= i < |w| ::
      Normal(w)[i] as int == if 'A' <= w[i] <= 'Z' then w[i] as int - 'A' as int + 'a' as int else w[i] as int
  {
    if w != "" {
      var n := WordLength(w);
      assert forall i | 0 <= i < |w| :: w[i] in w;
      assert w[..n] == w && w[n..] == "";
      assert Words(w[n..]) == [];
      assert Words(w) == [Lower(w)];
      JoinStep(Lower(w), []);
      assert [Lower(w)] + [] == [Lower(w)];
    }
  }

  /** Whatever separates, the parts are normalised and put together with one underscore, or without if
      one of them has no words. */
  lemma NormalSplits(a: string, c: char, b: string)
    requires !InWord(c)
    ensures Normal(a + [c] + b) ==
      if Normal(a) == "" then Normal(b)
      else if Normal(b) == "" then Normal(a)
      else Normal(a) + "_" + Normal(b)
  {
    WordsSplit(a, c, b);
    JoinAppend(Words(a), Words(b));
  }

  lemma {:induction false} WordsSplit(a: string, c: char, b: string)
    requires !InWord(c)
    ensures Words(a + [c] + b) == Words(a) + Words(b)
    decreases |a|
  {
    hide Words, WordLength, Lower;
    var s, n := a + [c] + b, WordLength(a);
    SameWordLength(a, c, b);
    if a == "" {
      WordsSkip(s);
      NoWords();
      assert s[1..] == b;
      assert [] + Words(b) == Words(b);
    } else if n == 0 {
      WordsSkip(s);
      WordsSkip(a);
      assert s[1..] == a[1..] + [c] + b;
      WordsSplit(a[1..], c, b);
    } else {
      assert s[n..] == a[n..] + [c] + b && s[..n] == a[..n];
      WordsSplit(a[n..], c, b);
      WordsStep(s);
      WordsStep(a);
      assert [Lower(a[..n])] + Words(a[n..]) + Words(b) == [Lower(a[..n])] + (Words(a[n..]) + Words(b));
    }
  }

  lemma NoWords()
    ensures Words("") == []
  {}

  lemma SameWordLength(a: string, c: char, b: string)
    requires !InWord(c)
    ensures WordLength(a + [c] + b) == WordLength(a)
    ensures a != "" ==> (WordLength(a) == 0 <==> !InWord(a[0])) && (a + [c] + b)[0] == a[0]
  {
    hide WordLength;
    var s := a + [c] + b;
    assert forall i | 0 <= i < |a| :: s[i] == a[i];
    assert s[|a|] == c;
  }

  lemma WordsSkip(s: string)
    requires s != "" && !InWord(s[0])
    ensures Words(s) == Words(s[1..])
  {}

  lemma {:induction false} JoinAppend(a: seq<string>, b: seq<string>)
    ensures JoinWords(a + b) == Glue(JoinWords(a), JoinWords(b))
  {
    if a == [] {
      assert a + b == b;
    } else {
      assert (a + b)[1..] == a[1..] + b;
      JoinAppend(a[1..], b);
      GlueGlue(a[0], JoinWords(a[1..]), JoinWords(b));
    }
  }

  lemma GlueGlue(a: string, b: string, c: string)
    ensures Glue(a, Glue(b, c)) == Glue(Glue(a, b), c)
  {
    assert a + "_" + (b + "_" + c) == a + "_" + b + "_" + c;
  }

  // ---------- the registry ----------

  /** What a search function answers for a name. */
  datatype Answer<C> = Found(codec: C) | NotFound | Raises

  type Search<!C> = (nat, string) -> Answer<C>

  /** A fresh scan of a search path: the first answer that is not "not found". */
  function Scan<C>(search: Search<C>, path: seq<nat>, name: string): Answer<C> {
    if path == [] then NotFound
    else match search(path[0], name)
      case NotFound => Scan(search, path[1..], name)
      case Found(codec) => Found(codec)
      case Raises => Raises
  }

  lemma {:induction false} ScanLonger<C>(search: Search<C>, path: seq<nat>, f: nat, name: string)
    requires Scan(search, path, name).Found?
    ensures Scan(search, path + [f], name) == Scan(search, path, name)
  {
    assert (path + [f])[0] == path[0] && (path + [f])[1..] == path[1..] + [f];
    if search(path[0], name).NotFound? { ScanLonger(search, path[1..], f, name); }
  }

  /** The first function that does not answer "not found" decides, also by raising. */
  lemma {:induction false} ScanIsFirst<C>(search: Search<C>, path: seq<nat>, name: string, i: nat)
    requires i <= |path| && forall j | 0 <= j < i :: search(path[j], name) == NotFound
    requires i < |path| ==> search(path[i], name) != NotFound
    ensures Scan(search, path, name) == if i < |path| then search(path[i], name) else NotFound
    decreases i
  {
    if i > 0 { ScanIsFirst(search, path[1..], name, i - 1); }
  }

  /** Where a lookup stands after its first half. */
  datatype Pending<C> = Finished(answer: Answer<C>) | ToStore(name: string, codec: C)

  function Scanned<C>(name: string, answer: Answer<C>): Pending<C> {
    if answer.Found? then ToStore(name, answer.codec) else Finished(answer)
  }

  function RemoveFirst(path: seq<nat>, f: nat): seq<nat> {
    if path == [] then [] else if path[0] == f then path[1..] else [path[0]] + RemoveFirst(path[1..], f)
  }

  /** The first registration of f is taken out, and the others stay in their order. */
  lemma {:induction false} RemoveFirstIs(path: seq<nat>, f: nat, i: nat)
    requires i <= |path| && (i < |path| ==> path[i] == f) && forall j | 0 <= j < i :: path[j] != f
    ensures RemoveFirst(path, f) == if i < |path| then path[..i] + path[i + 1..] else path
    decreases i
  {
    if i > 0 {
      RemoveFirstIs(path[1..], f, i - 1);
      assert path == [path[0]] + path[1..];
    }
  }

  /** The new path is the old one without position i, the first one that holds f. */
  ghost predicate TakenOut(path: seq<nat>, f: nat, i: nat, path': seq<nat>) {
    i < |path| && path[i] == f && f !in path[..i] && path' == path[..i] + path[i + 1..]
  }

  class Registry<C(==)> {
    const search: Search<C>
    var searchPath: seq<nat>
    var searchCache: map<string, C>
    /** The cache entries that were put there by hand. */
    ghost var manual: map<string, C>

    ghost predicate Valid()
      reads this
    {
      && manual.Keys <= searchCache.Keys
      && forall n <- searchCache.Keys ::
           if n in manual then searchCache[n] == manual[n] else Scan(search, searchPath, n) == Found(searchCache[n])
    }

    constructor (search: Search<C>)
      ensures Valid() && this.search == search && searchPath == [] && manual == map[]
    {
      this.search, searchPath, searchCache, manual := search, [], map[], map[];
    }

    method Register(callable: bool, f: nat) returns (ok: bool)
      requires Valid()
      modifies `searchPath
      ensures Valid() && ok == callable && searchPath == if ok then old(searchPath) + [f] else old(searchPath)
    {
      ok := callable;
      if ok {
        forall n | n in searchCache.Keys && n !in manual
          ensures Scan(search, searchPath + [f], n) == Found(searchCache[n])
        {
          ScanLonger(search, searchPath, f, n);
        }
        searchPath := searchPath + [f];
      }
    }

    /** Removes the first registration and with it everything cached; nothing if there is none. */
    method Unregister(f: nat)
      requires Valid()
      modifies this
      ensures Valid() && searchPath == RemoveFirst(old(searchPath), f)
      ensures f in old(searchPath) ==> exists i :: TakenOut(old(searchPath), f, i, searchPath)
      ensures f !in old(searchPath) ==> searchPath == old(searchPath)
      ensures if f in old(searchPath) then searchCache == map[]
        else searchCache == old(searchCache) && manual == old(manual)
    {
      hide RemoveFirst;
      for i := 0 to |searchPath|
        invariant unchanged(this)
        invariant forall j | 0 <= j < i :: searchPath[j] != f
      {
        if searchPath[i] == f {
          RemoveFirstIs(searchPath, f, i);
          assert TakenOut(searchPath, f, i, searchPath[..i] + searchPath[i + 1..]);
          searchCache, manual := map[], map[];
          searchPath := searchPath[..i] + searchPath[i + 1..];
          return;
        }
      }
      RemoveFirstIs(searchPath, f, |searchPath|);
    }

    method RegisterManual(name: string, codec: C)
      requires Valid()
      modifies `searchCache, `manual
      ensures Valid() && manual == old(manual)[Normal(name) := codec]
      ensures searchCache == old(searchCache)[Normal(name) := codec]
    {
      var key := NormalizeEncodingName(name);
      searchCache := searchCache[key := codec];
      manual := manual[key := codec];
    }

    /** The first half of a lookup: a cache hit, or a scan of the search path as it is now. */
    method LookupScan(encoding: string) returns (p: Pending<C>)
      requires Valid()
      ensures p == if Normal(encoding) in searchCache then Finished(Found(searchCache[Normal(encoding)]))
        else Scanned(Normal(encoding), Scan(search, searchPath, Normal(encoding)))
    {
      var name := NormalizeEncodingName(encoding);
      if name in searchCache.Keys {
        return Finished(Found(searchCache[name]));
      }
      var path := searchPath;
      assert path[0..] == path;
      for i := 0 to |path|
        invariant Scan(search, path, name) == Scan(search, path[i..], name)
      {
        assert path[i..][0] == path[i] && path[i..][1..] == path[i + 1..];
        var answer := search(path[i], name);
        if !answer.NotFound? {
          return Scanned(name, answer);
        }
      }
      p := Finished(NotFound);
    }

    /** The second half: an entry that is there by now wins. The cache then agrees with the search
        path exactly when there was one or the codec is what a scan would find now. */
    method LookupStore(name: string, codec: C) returns (r: C)
      requires Valid()
      modifies `searchCache
      ensures r == if name in old(searchCache) then old(searchCache)[name] else codec
      ensures searchCache == old(searchCache)[name := r]
      ensures Valid() <==> name in old(searchCache) || Scan(search, searchPath, name) == Found(codec)
    {
      if name in searchCache.Keys {
        r := searchCache[name];
        assert searchCache[name := r] == searchCache;
      } else {
        r := codec;
        searchCache := searchCache[name := codec];
        assert name in searchCache.Keys && name !in manual;
      }
    }

    /** The cache is invisible: the answer is a fresh scan of the current search path for the
        normal form of the name, unless the name was entered by hand. */
    method Lookup(encoding: string) returns (r: Answer<C>)
      requires Valid()
      modifies `searchCache
      ensures Valid()
      ensures r == if Normal(encoding) in manual then Found(manual[Normal(encoding)])
        else Scan(search, searchPath, Normal(encoding))
      ensures r.Found? ==> searchCache == old(searchCache)[Normal(encoding) := r.codec]
      ensures !r.Found? ==> searchCache == old(searchCache)
    {
      var p := LookupScan(encoding);
      match p {
        case Finished(answer) =>
          assert answer.Found? ==> searchCache[Normal(encoding) := answer.codec] == searchCache;
          r := answer;
        case ToStore(name, codec) =>
          var stored := LookupStore(name, codec);
          r := Found(stored);
      }
    }

    method Forget(encoding: string) returns (some: bool)
      requires Valid()
      modifies `searchCache, `manual
      ensures Valid() && some == (Normal(encoding) in old(searchCache))
      ensures searchCache == old(searchCache) - {Normal(encoding)} && manual == old(manual) - {Normal(encoding)}
    {
      var name := NormalizeEncodingName(encoding);
      some := name in searchCache.Keys;
      searchCache := searchCache - {name};
      manual := manual - {name};
    }
  }

  // ---------- runs ----------

  datatype Op<C> =
    | Register(f: nat)
    | Unregister(f: nat)
    | RegisterManual(name: string, codec: C)
    | Lookup(name: string)
    | Forget(name: string)

  /** The registry without a cache: the search path and the names entered by hand. */
  datatype Plain<C> = Plain(path: seq<nat>, manual: map<string, C>)

  function Step<C>(p: Plain<C>, op: Op<C>): Plain<C> {
    match op
    case Register(f) => p.(path := p.path + [f])
    case Unregister(f) => Plain(RemoveFirst(p.path, f), if f in p.path then map[] else p.manual)
    case RegisterManual(name, codec) => p.(manual := p.manual[Normal(name) := codec])
    case Lookup(_) => p
    case Forget(name) => p.(manual := p.manual - {Normal(name)})
  }

  function Steps<C>(p: Plain<C>, ops: seq<Op<C>>): Plain<C> {
    if ops == [] then p else Step(Steps(p, ops[..|ops| - 1]), ops[|ops| - 1])
  }

  function Answers<C>(search: Search<C>, p: Plain<C>, name: string): Answer<C> {
    if Normal(name) in p.manual then Found(p.manual[Normal(name)]) else Scan(search, p.path, Normal(name))
  }

  method Perform<C>(registry: Registry<C>, op: Op<C>)
    requires registry.Valid()
    modifies registry
    ensures registry.Valid() && StateOf(registry) == Step(old(StateOf(registry)), op)
  {
    match op {
      case Register(f) => var ok := registry.Register(true, f);
      case Unregister(f) => registry.Unregister(f);
      case RegisterManual(n, codec) => registry.RegisterManual(n, codec);
      case Lookup(n) => var found := registry.Lookup(n);
      case Forget(n) => var some := registry.Forget(n);
    }
  }

  ghost function StateOf<C>(registry: Registry<C>): Plain<C>
    reads registry
  {
    Plain(registry.searchPath, registry.manual)
  }

  method Run<C>(registry: Registry<C>, ops: seq<Op<C>>)
    requires registry.Valid()
    modifies registry
    ensures registry.Valid() && StateOf(registry) == Steps(old(StateOf(registry)), ops)
  {
    assert ops[..0] == [];
    for i := 0 to |ops|
      invariant registry.Valid() && StateOf(registry) == Steps(old(StateOf(registry)), ops[..i])
    {
      assert ops[..i + 1][..i] == ops[..i];
      Perform(registry, ops[i]);
    }
    assert ops[..|ops|] == ops;
  }

  /** After every run of operations, looking a name up answers as the registry without a cache would,
      and names with the same words answer alike. */
  method CacheInvisible<C(==)>(search: Search<C>, ops: seq<Op<C>>, name: string, alias: string)
    returns (r: Answer<C>, s: Answer<C>)
    ensures r == Answers(search, Steps(Plain([], map[]), ops), name)
    ensures Words(name) == Words(alias) ==> r == s
  {
    var registry := new Registry(search);
    Run(registry, ops);
    r := registry.Lookup(name);
    s := registry.Lookup(alias);
  }

  /** What one more operation at the end of a run changes in the answers. A registration is asked last;
      a codec entered by hand answers for all names alike until it is forgotten; a lookup changes
      nothing; and taking out a search function takes out every entry made by hand. */
  lemma OperationSeen<C>(search: Search<C>, p: Plain<C>, ops: seq<Op<C>>, op: Op<C>, name: string)
    ensures var before, q := Answers(search, Steps(p, ops), name), Steps(p, ops);
      var after := Answers(search, Steps(p, ops + [op]), name);
      match op
      case Register(f) => after == if before == NotFound then search(f, Normal(name)) else before
      case RegisterManual(n, codec) => after == if Words(n) == Words(name) then Found(codec) else before
      case Lookup(_) => after == before
      case Forget(n) => after == if Words(n) == Words(name) then Scan(search, q.path, Normal(name)) else before
      case Unregister(f) =>
        after == if f in q.path then Scan(search, RemoveFirst(q.path, f), Normal(name)) else before
  {
    assert (ops + [op])[..|ops|] == ops;
    var q := Steps(p, ops);
    match op
    case Register(f) => ScanAppend(search, q.path, f, Normal(name));
    case RegisterManual(n, _) => NormalForms(n, name);
    case Forget(n) => NormalForms(n, name);
    case Unregister(f) => if f !in q.path { RemoveAbsent(q.path, f); }
    case Lookup(_) =>
  }

  lemma {:induction false} ScanAppend<C>(search: Search<C>, path: seq<nat>, f: nat, name: string)
    ensures Scan(search, path + [f], name) ==
      if Scan(search, path, name) == NotFound then search(f, name) else Scan(search, path, name)
  {
    if path == [] {
      assert path + [f] == [f] && [f][1..] == [];
    } else {
      assert (path + [f])[0] == path[0] && (path + [f])[1..] == path[1..] + [f];
      ScanAppend(search, path[1..], f, name);
    }
  }

  // ---------- overlapping lookups ----------

  /** No operation of the run unregisters a search function that is registered at that time. */
  ghost predicate NoRemoval<C>(p: Plain<C>, ops: seq<Op<C>>) {
    forall i | 0 <= i < |ops| && ops[i].Unregister? :: ops[i].f !in Steps(p, ops[..i]).path
  }

  lemma {:induction false} RemoveAbsent(path: seq<nat>, f: nat)
    requires f !in path
    ensures RemoveFirst(path, f) == path
  {
    if path != [] { RemoveAbsent(path[1..], f); }
  }

  /** A name that was found is found with the same codec after such a run. */
  lemma {:induction false} ScanSurvives<C>(search: Search<C>, p: Plain<C>, ops: seq<Op<C>>, name: string)
    requires Scan(search, p.path, name).Found? && NoRemoval(p, ops)
    ensures Scan(search, Steps(p, ops).path, name) == Scan(search, p.path, name)
  {
    if ops != [] {
      var n := |ops| - 1;
      assert NoRemoval(p, ops[..n]) by {
        forall i | 0 <= i < n && ops[..n][i].Unregister? ensures ops[i].f !in Steps(p, ops[..n][..i]).path {
          assert ops[..n][..i] == ops[..i];
        }
      }
      ScanSurvives(search, p, ops[..n], name);
      var q := Steps(p, ops[..n]);
      match ops[n]
      case Register(f) => ScanLonger(search, q.path, f, name);
      case Unregister(f) => RemoveAbsent(q.path, f);
      case _ =>
    }
  }

  /** A lookup that other operations run in the middle of: unless one of them unregisters a registered
      search function, the cache agrees with the search path afterwards, and the answer is the one of
      a registry without a cache either before or after them. */
  method OverlappedLookup<C(==)>(registry: Registry<C>, encoding: string, between: seq<Op<C>>) returns (r: Answer<C>)
    requires registry.Valid()
    modifies registry
    ensures NoRemoval(old(StateOf(registry)), between) ==>
      && registry.Valid() && StateOf(registry) == Steps(old(StateOf(registry)), between)
      && (|| r == Answers(registry.search, old(StateOf(registry)), encoding)
          || r == Answers(registry.search, StateOf(registry), encoding))
  {
    ghost var p := StateOf(registry);
    var pending := registry.LookupScan(encoding);
    Run(registry, between);
    match pending {
      case Finished(answer) => r := answer;
      case ToStore(name, codec) =>
        if NoRemoval(p, between) { ScanSurvives(registry.search, p, between, name); }
        var stored := registry.LookupStore(name, codec);
        r := Found(stored);
    }
  }

  /** With such an operation in between, the cache can keep what no registered function finds. */
  method StaleAfterUnregister<C(==)>(search: Search<C>, f: nat, encoding: string)
      returns (registry: Registry<C>, r: Answer<C>)
    requires search(f, Normal(encoding)).Found?
    ensures fresh(registry) && registry.search == search && registry.searchPath == []
    ensures r == search(f, Normal(encoding)) && Scan(search, registry.searchPath, Normal(encoding)) == NotFound
    ensures Normal(encoding) in registry.searchCache && !registry.Valid()
  {
    registry := new Registry(search);
    var ok := registry.Register(true, f);
    assert registry.searchPath == [f];
    var pending := registry.LookupScan(encoding);
    registry.Unregister(f);
    match pending {
      case Finished(answer) => r := answer;
      case ToStore(name, codec) =>
        var stored := registry.LookupStore(name, codec);
        r := Found(stored);
    }
  }
}
