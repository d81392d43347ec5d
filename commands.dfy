/** The command table of the key/value server: the command word matched
    without regard to case, exact arity, and GET/SET/DEL over the store. */
module Commands {
  import opened Bytes
  import opened Wrappers
  import opened Wire
  import opened ServerHeader

  // Command words as the source spells them.
  const GET: Bytes := [0x67, 0x65, 0x74]  // "get"
  const SET: Bytes := [0x73, 0x65, 0x74]  // "set"
  const DEL: Bytes := [0x64, 0x65, 0x6c]  // "del"
  /** The diagnostic payload of an unrecognised request, "Unknown cmd". */
  const UNKNOWN_CMD: Bytes := [0x55, 0x6e, 0x6b, 0x6e, 0x6f, 0x77, 0x6e, 0x20, 0x63, 0x6d, 0x64]

  /** The contents of the store: keys and values are arbitrary byte strings. */
  type Entries = map<Bytes, Bytes>

  /** Lower-casing of one character in the C locale. */
  function ToLower(c: Byte): Byte
  {
    if 0x41 <= c <= 0x5a then c + 0x20 else c
  }

  function Lower(s: Bytes): (r: Bytes)
    ensures |r| == |s|
  {
    seq(|s|, i requires 0 <= i < |s| => ToLower(s[i]))
  }

  /** What `c_str()` shows of a string: everything before its first NUL. */
  function CStr(s: Bytes): (r: Bytes)
    ensures r <= s && 0 !in r
    ensures |r| < |s| ==> s[|r|] == 0
  {
    if s == [] || s[0] == 0 then [] else [s[0]] + CStr(s[1..])
  }

  /** `cmd_is`: `strcasecmp(word.c_str(), cmd) == 0`. */
  predicate CmdIs(word: Bytes, cmd: Bytes)
  {
    Lower(CStr(word)) == Lower(CStr(cmd))
  }

  /** CStr commutes with lower-casing, because only NUL lower-cases to NUL. */
  lemma {:induction false} CStrLower(s: Bytes)
    ensures CStr(Lower(s)) == Lower(CStr(s))
  {
    if s != [] && s[0] != 0 {
      var t := Lower(s);
      LowerCons(s[0], s[1..]);
      assert s == [s[0]] + s[1..];
      assert t[1..] == Lower(s[1..]);
      CStrLower(s[1..]);
      LowerCons(s[0], CStr(s[1..]));
    }
  }

  /** Lower-casing goes character by character. */
  lemma LowerCons(c: Byte, r: Bytes)
    ensures Lower([c] + r) == [ToLower(c)] + Lower(r)
  {
  }

  /** The match ignores case: a word matches exactly when its lower-cased form does. */
  lemma CmdIsIgnoresCase(word: Bytes, cmd: Bytes)
    ensures CmdIs(word, cmd) <==> CmdIs(Lower(word), cmd)
  {
    CStrLower(word);
    var c := CStr(word);
    assert Lower(Lower(c)) == Lower(c);
  }

  /** A string without NUL is its own C string. */
  lemma {:induction false} CStrOfPlain(s: Bytes)
    requires 0 !in s
    ensures CStr(s) == s
  {
    if s != [] {
      assert 0 !in s[1..];
      CStrOfPlain(s[1..]);
    }
  }

  /** A word without NUL matches a command word exactly when it equals it up to case. */
  lemma CmdIsPlainWord(word: Bytes, cmd: Bytes)
    requires 0 !in word && 0 !in cmd
    ensures CmdIs(word, cmd) <==> Lower(word) == Lower(cmd)
  {
    CStrOfPlain(word);
    CStrOfPlain(cmd);
  }

  /** A word that matches a command word is at least as long as it. */
  lemma CmdIsLength(word: Bytes, cmd: Bytes)
    requires 0 !in cmd && CmdIs(word, cmd)
    ensures |word| >= |cmd|
  {
    CStrOfPlain(cmd);
  }

  /** The match stops at the first NUL: "get" followed by NUL and anything is "get". */
  lemma CmdIsStopsAtNul(junk: Bytes)
    ensures CmdIs(GET + [0] + junk, GET)
  {
    var w := GET + [0] + junk;
    assert w[1..][1..][1..][0] == 0;
    assert CStr(w) == GET;
    CStrOfPlain(GET);
  }

  /** The effect of one request on the store: its code, payload and new contents. */
  datatype Outcome = Outcome(code: nat, payload: Bytes, entries: Entries)

  predicate IsGet(cmd: seq<Bytes>) { |cmd| == 2 && CmdIs(cmd[0], GET) }
  predicate IsSet(cmd: seq<Bytes>) { |cmd| == 3 && CmdIs(cmd[0], SET) }
  predicate IsDel(cmd: seq<Bytes>) { |cmd| == 2 && CmdIs(cmd[0], DEL) }

  /** No word matches two of the command words: their lower-cased first letters differ. */
  lemma CommandWordsDistinct(word: Bytes)
    ensures !(CmdIs(word, GET) && CmdIs(word, SET))
    ensures !(CmdIs(word, GET) && CmdIs(word, DEL))
    ensures !(CmdIs(word, SET) && CmdIs(word, DEL))
  {
    CStrOfPlain(GET);
    CStrOfPlain(SET);
    CStrOfPlain(DEL);
    assert Lower(GET)[0] == 0x67 && Lower(SET)[0] == 0x73 && Lower(DEL)[0] == 0x64;
  }

  /** Dispatch of a parsed request, tried in the source's order. */
  function Execute(cmd: seq<Bytes>, m: Entries): (r: Outcome)
    ensures r.code == RES_OK || r.code == RES_ERR || r.code == RES_NX
  {
    if IsGet(cmd) then
      if cmd[1] in m then Outcome(RES_OK, m[cmd[1]], m) else Outcome(RES_NX, [], m)
    else if IsSet(cmd) then Outcome(RES_OK, [], m[cmd[1] := cmd[2]])
    else if IsDel(cmd) then Outcome(RES_OK, [], m - {cmd[1]})
    else Outcome(RES_ERR, UNKNOWN_CMD, m)
  }

  /** `do_request`: a body that does not parse is an error (-1); otherwise the
      parsed request is executed. */
  function DoRequestSpec(req: Bytes, m: Entries): Option<Outcome>
  {
    match ParseBody(req)
    case None => None
    case Some(cmd) => Some(Execute(cmd, m))
  }

  /** GET of an absent key answers RES_NX with an empty payload. */
  lemma GetMissing(word: Bytes, k: Bytes, m: Entries)
    requires CmdIs(word, GET) && k !in m
    ensures Execute([word, k], m) == Outcome(RES_NX, [], m)
  {
  }

  /** GET after SET of the same key returns the value set. */
  lemma SetThenGet(setWord: Bytes, getWord: Bytes, k: Bytes, v: Bytes, m: Entries)
    requires CmdIs(setWord, SET) && CmdIs(getWord, GET)
    ensures var m' := Execute([setWord, k, v], m).entries;
      Execute([getWord, k], m') == Outcome(RES_OK, v, m')
  {
  }

  /** GET after DEL of the same key finds nothing, whether or not the key was there. */
  lemma DelThenGet(delWord: Bytes, getWord: Bytes, k: Bytes, m: Entries)
    requires CmdIs(delWord, DEL) && CmdIs(getWord, GET)
    ensures Execute([delWord, k], m).code == RES_OK
    ensures var m' := Execute([delWord, k], m).entries;
      Execute([getWord, k], m') == Outcome(RES_NX, [], m')
  {
    CommandWordsDistinct(delWord);
  }

  /** A request touches no key but the one it names: every other key keeps
      its presence and value, and requests other than SET and DEL change nothing. */
  lemma OnlyNamedKeyChanges(cmd: seq<Bytes>, m: Entries, other: Bytes)
    requires |cmd| < 2 || other != cmd[1]
    ensures var m' := Execute(cmd, m).entries;
      (other in m' <==> other in m) && (other in m ==> m'[other] == m[other])
    ensures !IsSet(cmd) && !IsDel(cmd) ==> Execute(cmd, m).entries == m
  {
  }

  /** Anything but the three recognised forms answers RES_ERR with the
      11-byte "Unknown cmd" and leaves the store alone. */
  lemma UnknownCommand(cmd: seq<Bytes>, m: Entries)
    requires !IsGet(cmd) && !IsSet(cmd) && !IsDel(cmd)
    ensures Execute(cmd, m) == Outcome(RES_ERR, UNKNOWN_CMD, m) && |UNKNOWN_CMD| == 11
  {
  }

  /** Wrong arity is unknown even for a known word: "get" or "del" with no
      key or with an extra argument, "set" with no value or with an extra one. */
  lemma ArityIsExact(word: Bytes, k: Bytes, m: Entries)
    ensures CmdIs(word, GET) || CmdIs(word, DEL) ==>
      Execute([word], m).code == RES_ERR && Execute([word, k, k], m).code == RES_ERR
    ensures CmdIs(word, SET) ==>
      Execute([word, k], m).code == RES_ERR && Execute([word, k, k, k], m).code == RES_ERR
  {
    assert [word, k, k][0] == word;
    assert [word, k][0] == word;
    assert [word, k, k, k][0] == word;
    CommandWordsDistinct(word);
  }

  // ------------------------------------------------------------------
  // Sizes

  /** Largest value a SET can carry: a body of MAX_MSG bytes less the count
      field, three length fields and the three bytes of "set". */
  const MAX_VALUE: nat := MAX_MSG - 19

  ghost predicate Bounded(m: Entries)
  {
    forall k :: k in m ==> |m[k]| <= MAX_VALUE
  }

  /** Three arguments take twelve bytes of length fields plus their bytes. */
  lemma ArgsSizeOfThree(a: Bytes, b: Bytes, c: Bytes)
    ensures ArgsSize([a, b, c]) == 12 + |a| + |b| + |c|
  {
    assert [a, b, c][1..] == [b, c];
    assert [b, c][1..] == [c];
    assert [c][1..] == [];
    assert ArgsSize([c]) == 4 + |c|;
    assert ArgsSize([b, c]) == 8 + |b| + |c|;
  }

  /** Every value in the store came from a SET body of at most MAX_MSG bytes,
      so values stay within MAX_VALUE bytes and every payload, a stored
      value or "Unknown cmd", fits behind the 8-byte response header. */
  lemma ResponsesFit(req: Bytes, m: Entries)
    requires |req| <= MAX_MSG && Bounded(m)
    requires DoRequestSpec(req, m).Some?
    ensures var o := DoRequestSpec(req, m).value;
      Bounded(o.entries) && |o.payload| <= MAX_VALUE
  {
    var cmd: seq<Bytes> := ParseBody(req).value;
    ParsedBodyIsEncoding(req);
    assert BodyLen(cmd) <= MAX_MSG;
    if IsSet(cmd) {
      CStrOfPlain(SET);
      CmdIsLength(cmd[0], SET);
      assert cmd == [cmd[0], cmd[1], cmd[2]];
      ArgsSizeOfThree(cmd[0], cmd[1], cmd[2]);
    }
    ExecuteBounded(cmd, m);
  }

  /** Executing a request keeps the store bounded when a SET carries at most
      MAX_VALUE bytes, and its payload is a stored value or "Unknown cmd". */
  lemma ExecuteBounded(cmd: seq<Bytes>, m: Entries)
    requires Bounded(m) && (IsSet(cmd) ==> |cmd[2]| <= MAX_VALUE)
    ensures Bounded(Execute(cmd, m).entries) && |Execute(cmd, m).payload| <= MAX_VALUE
  {
    if IsGet(cmd) {
    } else if IsSet(cmd) {
      var m' := m[cmd[1] := cmd[2]];
      assert forall k :: k in m' ==> |m'[k]| <= MAX_VALUE;
    }
  }

  /** The same for a request a client builds: its body parses to its own
      arguments, so executing them keeps the store bounded and the payload
      within MAX_VALUE bytes. */
  lemma ExecuteFits(args: seq<Bytes>, m: Entries)
    requires BodyLen(args) <= MAX_MSG && Bounded(m)
    ensures DoRequestSpec(EncodeBody(args), m) == Some(Execute(args, m))
    ensures Bounded(Execute(args, m).entries) && |Execute(args, m).payload| <= MAX_VALUE
  {
    RequestArgCountBound(args);
    ParseBodyOfEncoding(args);
    ResponsesFit(EncodeBody(args), m);
  }
}
