/**
 * The substitution parser (src/common/strsub.c): words between the tokens of a pair are replaced by what
 * the first handler makes of them, and an escape character takes the next character as it is.
 */
module StrSub {

  datatype Option<T> = None | Some(value: T)

  /** A handler either does not know a word or has a text for it, which it passes to the callback. */
  datatype Handler = Handler(id: nat, lookup: string -> Option<string>)

  datatype Tokens = Tokens(open: char, close: char)

  const LAST: nat := 3

  /** Escape character (zero for none), token pairs and handlers of an instance. */
  datatype Setup = Setup(escape: char, tokens: seq<Option<Tokens>>, handlers: seq<seq<Handler>>) {
    predicate Ok() { |tokens| == |handlers| == LAST }
  }

  // ---------------------------------------------------------------- the meaning of a string

  datatype State = Dull | Esc | Word(token: nat)

  predicate Opens(u: Setup, i: nat, c: char)
    requires u.Ok() && i < LAST
  {
    u.tokens[i].Some? && u.handlers[i] != [] && u.tokens[i].value.open == c
  }

  /** The first token pair from i on that c opens, or LAST. */
  function OpenFrom(u: Setup, i: nat, c: char): (t: nat)
    requires u.Ok() && i <= LAST
    ensures i <= t <= LAST && (t < LAST ==> Opens(u, t, c))
    ensures forall j :: i <= j < t ==> !Opens(u, j, c)
    decreases LAST - i
  {
    if i == LAST || Opens(u, i, c) then i else OpenFrom(u, i + 1, c)
  }

  predicate IsEscape(u: Setup, c: char) { u.escape != '\0' && c == u.escape }

  /** What the handlers make of a word: the text of the first one that knows it, else the word with its tokens. */
  function Replaced(hs: seq<Handler>, word: string, asIs: string): string {
    if hs == [] then asIs
    else match hs[0].lookup(word)
         case Some(text) => text
         case None => Replaced(hs[1..], word, asIs)
  }

  /** A state the parser can be in: inside a word, its opening token is one with handlers. */
  predicate StateOk(u: Setup, st: State) {
    u.Ok() && (st.Word? ==> st.token < LAST && u.tokens[st.token].Some?)
  }

  /** The text that a string stands for, from a state in which the characters of word have been collected. */
  function Spec(u: Setup, st: State, word: string, s: string): string
    requires StateOk(u, st)
    decreases |s|
  {
    if s == [] || s[0] == '\0' then []
    else
      var c, rest := s[0], s[1..];
      match st
      case Dull =>
        if IsEscape(u, c) then Spec(u, Esc, [], rest)
        else if OpenFrom(u, 0, c) < LAST then Spec(u, Word(OpenFrom(u, 0, c)), [], rest)
        else [c] + Spec(u, Dull, [], rest)
      case Esc => [c] + Spec(u, Dull, [], rest)
      case Word(t) =>
        if c == u.tokens[t].value.close then
          Replaced(u.handlers[t], word, [u.tokens[t].value.open] + word + [c]) + Spec(u, Dull, [], rest)
        else Spec(u, Word(t), word + [c], rest)
  }

  /** What a whole string stands for. */
  function Meaning(u: Setup, s: string): string
    requires u.Ok()
  {
    Spec(u, Dull, [], s)
  }

  predicate Plain(u: Setup, c: char)
    requires u.Ok()
  {
    c != '\0' && !IsEscape(u, c) && OpenFrom(u, 0, c) == LAST
  }

  /** A string of plain characters stands for itself, whatever follows it. */
  lemma {:induction false} PlainText(u: Setup, a: string, b: string)
    requires u.Ok() && forall i :: 0 <= i < |a| ==> Plain(u, a[i])
    ensures Meaning(u, a + b) == a + Meaning(u, b)
  {
    if a == [] {
      assert a + b == b;
    } else {
      assert (a + b)[0] == a[0] && (a + b)[1..] == a[1..] + b;
      PlainText(u, a[1..], b);
    }
  }

  /** The string with an escape in front of every character that is not plain. */
  function Quoted(u: Setup, s: string): string
    requires u.Ok()
  {
    if s == [] then [] else (if Plain(u, s[0]) then [s[0]] else [u.escape, s[0]]) + Quoted(u, s[1..])
  }

  /** Quoting any text without a zero makes the parser give it back. */
  lemma {:induction false} QuoteRoundTrip(u: Setup, s: string)
    requires u.Ok() && u.escape != '\0' && '\0' !in s
    ensures Meaning(u, Quoted(u, s)) == s
  {
    if s != [] {
      var rest := Quoted(u, s[1..]);
      assert s[0] in s && '\0' !in s[1..];
      QuoteRoundTrip(u, s[1..]);
      if Plain(u, s[0]) {
        PlainText(u, [s[0]], rest);
      } else {
        var q := [u.escape, s[0]] + rest;
        assert q[1..] == [s[0]] + rest && q[1..][1..] == rest;
        assert Meaning(u, q) == Spec(u, Esc, [], q[1..]);
      }
      assert s == [s[0]] + s[1..];
    }
  }

  /** In a closed word the first handler that knows it decides. */
  lemma {:induction false} WordText(u: Setup, t: nat, before: string, word: string, b: string)
    requires StateOk(u, Word(t)) && '\0' !in word && u.tokens[t].value.close !in word && u.tokens[t].value.close != '\0'
    ensures var close := u.tokens[t].value.close;
            Spec(u, Word(t), before, word + [close] + b)
            == Replaced(u.handlers[t], before + word, [u.tokens[t].value.open] + (before + word) + [close])
              + Meaning(u, b)
    decreases |word|
  {
    var close := u.tokens[t].value.close;
    if word == [] {
      assert word + [close] + b == [close] + b;
      assert before + word == before;
    } else {
      assert word[0] in word;
      assert (word + [close] + b)[1..] == word[1..] + [close] + b;
      assert before + [word[0]] + word[1..] == before + word;
      WordText(u, t, before + [word[0]], word[1..], b);
    }
  }

  // ---------------------------------------------------------------- what a string stands for, by its first character

  /** Token pair t is the first one with handlers whose open token is c. */
  predicate FirstOpened(u: Setup, t: nat, c: char)
    requires u.Ok() && t < 3
  {
    && u.tokens[t].Some? && u.tokens[t].value.open == c && u.handlers[t] != []
    && forall j :: 0 <= j < t ==> u.tokens[j] == None || u.tokens[j].value.open != c || u.handlers[j] == []
  }

  lemma OpenFromIs(u: Setup, t: nat, c: char)
    requires u.Ok() && t < 3 && FirstOpened(u, t, c)
    ensures OpenFrom(u, 0, c) == t
  {
    var t' := OpenFrom(u, 0, c);
    assert Opens(u, t, c);
    if t' < t { assert Opens(u, t', c); }
  }

  /** A character is plain unless it is zero, the escape, or an open token of a pair with handlers. */
  lemma PlainMeans(u: Setup, c: char)
    requires u.Ok()
    ensures Plain(u, c)
            <==> c != '\0' && (u.escape == '\0' || c != u.escape)
                 && forall t :: 0 <= t < 3 ==> u.tokens[t] == None || u.handlers[t] == [] || u.tokens[t].value.open != c
  {
    if OpenFrom(u, 0, c) == LAST {
      forall t | 0 <= t < 3
        ensures u.tokens[t] == None || u.handlers[t] == [] || u.tokens[t].value.open != c
      {
        assert !Opens(u, t, c);
      }
    } else {
      assert Opens(u, OpenFrom(u, 0, c), c);
    }
  }

  /** An open token, a word and the closing token stand for what the handlers of the pair make of the word. */
  lemma ClosedWord(u: Setup, t: nat, word: string, b: string)
    requires u.Ok() && t < 3 && u.tokens[t].Some? && FirstOpened(u, t, u.tokens[t].value.open)
    requires var o, c := u.tokens[t].value.open, u.tokens[t].value.close;
             o != '\0' && (u.escape == '\0' || o != u.escape) && c != '\0' && c !in word && '\0' !in word
    ensures var o, c := u.tokens[t].value.open, u.tokens[t].value.close;
            Meaning(u, [o] + word + [c] + b) == Replaced(u.handlers[t], word, [o] + word + [c]) + Meaning(u, b)
  {
    hide OpenFrom;
    var o, c := u.tokens[t].value.open, u.tokens[t].value.close;
    var s := [o] + word + [c] + b;
    OpenFromIs(u, t, o);
    assert s[0] == o && s[1..] == word + [c] + b;
    WordText(u, t, [], word, b);
    assert [] + word == word;
  }

  /** A word that is not closed stands for nothing, up to the end of the string or a zero. */
  lemma OpenWord(u: Setup, t: nat, word: string, b: string)
    requires u.Ok() && t < 3 && u.tokens[t].Some? && FirstOpened(u, t, u.tokens[t].value.open)
    requires var o, c := u.tokens[t].value.open, u.tokens[t].value.close;
             o != '\0' && (u.escape == '\0' || o != u.escape) && c !in word && '\0' !in word
    requires b == [] || b[0] == '\0'
    ensures Meaning(u, [u.tokens[t].value.open] + word + b) == []
  {
    hide OpenFrom;
    var o := u.tokens[t].value.open;
    var s := [o] + word + b;
    OpenFromIs(u, t, o);
    assert s[0] == o && s[1..] == word + b;
    Unclosed(u, t, [], word, b);
  }

  lemma {:induction false} Unclosed(u: Setup, t: nat, before: string, word: string, b: string)
    requires StateOk(u, Word(t)) && u.tokens[t].value.close !in word && '\0' !in word && (b == [] || b[0] == '\0')
    ensures Spec(u, Word(t), before, word + b) == []
    decreases |word|
  {
    if word == [] {
      assert word + b == b;
    } else {
      assert word[0] in word && (word + b)[1..] == word[1..] + b;
      Unclosed(u, t, before + [word[0]], word[1..], b);
    }
  }

  /** The escape takes the next character as it is, and stands for nothing at the end. */
  lemma EscapedText(u: Setup, d: char, b: string)
    requires u.Ok() && u.escape != '\0'
    ensures d != '\0' ==> Meaning(u, [u.escape, d] + b) == [d] + Meaning(u, b)
    ensures d == '\0' ==> Meaning(u, [u.escape, d] + b) == []
    ensures Meaning(u, [u.escape]) == []
  {
    hide OpenFrom;
    var s := [u.escape, d] + b;
    assert s[0] == u.escape && s[1..] == [d] + b && s[1..][1..] == b;
    assert Meaning(u, s) == Spec(u, Esc, [], s[1..]);
    assert Meaning(u, [u.escape]) == Spec(u, Esc, [], [u.escape][1..]);
  }

  /** Nothing follows a zero. */
  lemma EndOfText(u: Setup, b: string)
    requires u.Ok()
    ensures Meaning(u, []) == [] && Meaning(u, ['\0'] + b) == []
  {
  }

  /** The first handler that knows a word replaces it; a word that none knows is left as it is. */
  lemma {:induction false} FirstKnows(hs: seq<Handler>, i: nat, word: string, asIs: string)
    requires i <= |hs| && forall j :: 0 <= j < i ==> hs[j].lookup(word) == None
    ensures i == |hs| ==> Replaced(hs, word, asIs) == asIs
    ensures i < |hs| && hs[i].lookup(word).Some? ==> Replaced(hs, word, asIs) == hs[i].lookup(word).value
  {
    if i > 0 {
      FirstKnows(hs[1..], i - 1, word, asIs);
    }
  }

  // ---------------------------------------------------------------- the destination

  function Min(a: nat, b: nat): nat { if a <= b then a else b }

  /** The destination of strsub_cb: a buffer, or none if only the length is wanted. */
  class Sink {
    const buffer: array?<char>
    const len: nat

    ghost predicate Valid()
      reads {}
    {
      1 <= len && (buffer != null ==> len <= buffer.Length)
    }

    constructor (b: array?<char>, n: nat)
      requires 1 <= n && (b != null ==> n <= b.Length)
      ensures Valid() && buffer == b && len == n
    {
      buffer, len := b, n;
    }

    /** Of the text so far as much is stored as fits in front of the last byte; the rest of the buffer is as in base. */
    ghost predicate Stored(text: string, offset: nat, base: seq<char>)
      requires Valid()
      reads if buffer == null then {} else {buffer}
    {
      && offset == Min(|text|, len - 1)
      && (buffer != null ==>
            && |base| == buffer.Length
            && buffer[..offset] == text[..offset] && buffer[offset..] == base[offset..])
    }

    /** strsub_cb */
    method Emit(str: string, offset: nat, ghost text: string, ghost base: seq<char>) returns (res: int)
      requires Valid() && Stored(text, offset, base)
      modifies if buffer == null then {} else {buffer}
      ensures res == if offset >= len - 1 then -1 else Min(|str|, len - 1 - offset)
      ensures Stored(text + str, if res > 0 then offset + res else offset, base)
    {
      if offset >= len - 1 {
        assert (text + str)[..offset] == text[..offset];
        return -1;
      }
      assert text[..offset] == text;
      var n := |str|;
      if n + offset >= len - 1 { n := len - offset - 1; }
      if buffer != null {
        ghost var rest := buffer[offset..];
        forall i | 0 <= i < n {
          buffer[offset + i] := str[i];
        }
        assert buffer[..offset + n] == text + str[..n];
        assert buffer[offset + n..] == base[offset + n..] by {
          assert rest[n..] == base[offset + n..];
          assert buffer[offset + n..] == rest[n..];
        }
      }
      assert (text + str)[..offset + n] == text + str[..n];
      return n;
    }

    /** Once the buffer is full, more text changes nothing. */
    lemma Full(a: string, b: string, base: seq<char>)
      requires Valid() && len - 1 <= |a|
      ensures Stored(a, len - 1, base) <==> Stored(a + b, len - 1, base)
    {
      assert (a + b)[..len - 1] == a[..len - 1];
    }
  }

  // ---------------------------------------------------------------- the parser

  class Instance {
    const escape: char
    const tokens: seq<Option<Tokens>>
    var handlers: seq<seq<Handler>>

    constructor (e: char, ts: seq<Option<Tokens>>)
      requires |ts| == LAST
      ensures Ok() && escape == e && tokens == ts && handlers == [[], [], []]
    {
      escape, tokens := e, ts;
      handlers := [[], [], []];
    }

    ghost predicate Ok()
      reads this
    {
      Config().Ok()
    }

    ghost function Config(): Setup
      reads this
    {
      Setup(escape, tokens, handlers)
    }

    /** strsub_install_handler */
    method Install(token: int, h: Handler) returns (ok: bool)
      requires Ok()
      modifies this
      ensures Ok() && ok == (0 <= token < LAST)
      ensures handlers == if 0 <= token < LAST then old(handlers)[token := [h] + old(handlers)[token]]
                          else old(handlers)
    {
      if 0 <= token < LAST {
        handlers := handlers[token := [h] + handlers[token]];
        return true;
      }
      return false;
    }

    /** strsub_uninstall_handler: removes the handler, if it is there. */
    method Uninstall(token: nat, id: nat)
      requires Ok() && token < LAST
      modifies this
      ensures Ok() && handlers == old(handlers)[token := WithoutHandler(old(handlers)[token], id)]
    {
      hide WithoutHandler;
      var l := 0;
      var list := handlers[token];
      assert list[0..] == list && list[..0] == [];
      while l < |list| && list[l].id != id
        invariant handlers == old(handlers)
        invariant l <= |list| && WithoutHandler(list, id) == list[..l] + WithoutHandler(list[l..], id)
      {
        PassHandler(list, l, id);
        l := l + 1;
      }
      DropHandler(list, l, id);
      if l < |list| {
        handlers := handlers[token := list[..l] + list[l + 1..]];
      }
    }

    /** The first token pair that the character opens. */
    method FindOpen(c: char) returns (t: nat)
      requires Ok()
      ensures t == OpenFrom(Config(), 0, c)
    {
      t := 0;
      while t < LAST
        invariant t <= LAST && OpenFrom(Config(), 0, c) == OpenFrom(Config(), t, c)
      {
        if tokens[t].Some? && handlers[t] != [] && c == tokens[t].value.open { return; }
        t := t + 1;
      }
    }

    /** The handlers of a token are asked in turn; a word that none of them takes is left as it is. */
    method Replace(t: nat, word: string, asIs: string, sink: Sink, was: nat, ghost done: string, ghost base: seq<char>)
      returns (res: int, offset: nat)
      requires Ok() && t < LAST && sink.Valid() && sink.Stored(done, was, base)
      modifies if sink.buffer == null then {} else {sink.buffer}
      ensures sink.Stored(done + Replaced(handlers[t], word, asIs), offset, base)
      ensures res < 0 ==> offset == sink.len - 1
    {
      offset := was;
      var i := 0;
      while i < |handlers[t]|
        invariant i <= |handlers[t]| && offset == was && sink.Stored(done, was, base)
        invariant was < sink.len - 1 ==> Replaced(handlers[t], word, asIs) == Replaced(handlers[t][i..], word, asIs)
      {
        match handlers[t][i].lookup(word) {
          case Some(text) =>
            res := sink.Emit(text, offset, done, base);
            if res >= 0 {
              offset := offset + res;
              return;
            }
            sink.Full(done, text, base);
          case None =>
            res := -1;
        }
        i := i + 1;
      }
      res := sink.Emit(asIs, offset, done, base);
      if res > 0 { offset := offset + res; }
      if was >= sink.len - 1 {
        sink.Full(done, asIs, base);
        sink.Full(done, Replaced(handlers[t], word, asIs), base);
      }
    }

    /** One character of the input. */
    method Step(text: string, p: nat, state: State, start: nat, sink: Sink, was: nat,
                ghost word: string, ghost done: string, ghost base: seq<char>)
      returns (res: int, offset: nat, state': State, start': nat, ghost word': string, ghost done': string)
      requires Ok() && StateOk(Config(), state) && p < |text| && text[p] != '\0'
      requires start <= p && word == if state.Word? then text[start..p] else []
      requires state.Word? ==> 0 < start && text[start - 1] == tokens[state.token].value.open
      requires sink.Valid() && sink.Stored(done, was, base)
      modifies if sink.buffer == null then {} else {sink.buffer}
      ensures StateOk(Config(), state') && start' <= p + 1 && word' == if state'.Word? then text[start'..p + 1] else []
      ensures state'.Word? ==> 0 < start' && text[start' - 1] == tokens[state'.token].value.open
      ensures sink.Stored(done', offset, base) && (res < 0 ==> offset == sink.len - 1)
      ensures done + Spec(Config(), state, word, text[p..]) == done' + Spec(Config(), state', word', text[p + 1..])
    {
      hide OpenFrom, Replaced;
      var c := text[p];
      Unfold(Config(), state, word, text, p);
      res, offset, state', start', word', done' := 0, was, state, start, [], done;
      match state {
        case Dull =>
          if escape != '\0' && c == escape {
            state' := Esc;
          } else {
            var t := FindOpen(c);
            if t < LAST {
              state' := Word(t);
              start' := p + 1;
            } else {
              res := sink.Emit([c], offset, done, base);
              done' := done + [c];
              if res > 0 { offset := offset + res; }
            }
          }
        case Esc =>
          res := sink.Emit([c], offset, done, base);
          done' := done + [c];
          if res > 0 { offset := offset + res; }
          state' := Dull;
        case Word(t) =>
          if c == tokens[t].value.close {
            var asIs := text[start - 1..p + 1];
            assert asIs == [tokens[t].value.open] + word + [c];
            res, offset := Replace(t, text[start..p], asIs, sink, was, done, base);
            done' := done + Replaced(handlers[t], word, asIs);
            state' := Dull;
          } else {
            word' := word + [c];
            assert text[start..p] + [c] == text[start..p + 1];
          }
      }
    }

    /** strsub_parse, with strsub_cb as the callback: stores the meaning of the first len characters. */
    method Parse(str: string, len: nat, sink: Sink, ghost base: seq<char>) returns (offset: nat)
      requires Ok() && sink.Valid() && sink.Stored([], 0, base)
      modifies if sink.buffer == null then {} else {sink.buffer}
      ensures var full := Meaning(Config(), str[..Min(len, |str|)]);
              && offset == Min(|full|, sink.len - 1)
              && sink.Stored(full + ['\0'], Min(|full| + 1, sink.len - 1), base)
    {
      hide Spec, OpenFrom;
      ghost var u := Config();
      var text := str[..Min(len, |str|)];
      var state, res := Dull, 0;
      var start: nat, p: nat := 0, 0;
      ghost var word, done := [], [];
      offset := 0;
      assert text[0..] == text && done + Meaning(u, text) == Meaning(u, text);
      while res >= 0 && p < |str| && str[p] != '\0' && p < len
        invariant Ok() && Config() == u && p <= |text| && start <= p && StateOk(u, state)
        invariant word == if state.Word? then text[start..p] else []
        invariant state.Word? ==> 0 < start && text[start - 1] == tokens[state.token].value.open
        invariant sink.Stored(done, offset, base) && (res < 0 ==> offset == sink.len - 1)
        invariant done + Spec(u, state, word, text[p..]) == Meaning(u, text)
        decreases |text| - p
      {
        res, offset, state, start, word, done := Step(text, p, state, start, sink, offset, word, done, base);
        p := p + 1;
      }
      ghost var full := Meaning(u, text);
      if res >= 0 {
        NothingLeft(u, state, word, text[p..]);
        assert done == full;
        res := sink.Emit(['\0'], offset, full, base);
      } else {
        sink.Full(done, Spec(u, state, word, text[p..]) + ['\0'], base);
        assert done + (Spec(u, state, word, text[p..]) + ['\0']) == full + ['\0'];
      }
    }

    /**
     * strsub_parse_string_to: a prefix of the meaning and, if there is room for it, a terminating zero. A length of
     * zero asks for the whole string. Nothing behind the zero, or behind the last byte but one, is written.
     */
    method ParseStringTo(str: string, len: nat, dst: array<char>, dstLen: nat) returns (offset: nat)
      requires Ok() && '\0' !in str && 1 <= dstLen <= dst.Length && dstLen < 0x8000_0000
      modifies dst
      ensures var full := Meaning(Config(), if len == 0 || |str| < len then str else str[..len]);
              && offset == (if |full| < dstLen then |full| else dstLen - 1) && dst[..offset] == full[..offset]
              && (|full| < dstLen - 1 ==> dst[offset] == '\0' && dst[offset + 1..] == old(dst[offset + 1..]))
              && (|full| >= dstLen - 1 && 1 < dstLen ==> dst[offset..] == old(dst[offset..]))
              && (dstLen == 1 ==> dst[..] == ['\0'] + old(dst[1..]))
    {
      var sink := new Sink(dst, dstLen);
      dst[0] := '\0';
      ghost var base := dst[..];
      offset := Parse(str, if len == 0 then |str| else len, sink, base);
      ghost var full := Meaning(Config(), if len == 0 || |str| < len then str else str[..len]);
      assert str[..|str|] == str;
      StoredMeans(sink, full, base);
      assert forall i :: 1 <= i < dst.Length ==> base[i] == old(dst[i]);
      if dstLen == 1 {
        assert base == ['\0'] + old(dst[1..]);
        assert dst[..] == dst[0..] == base[0..] == base;
      }
    }

    /** strsub_parse_get_dst_length: the length of the whole meaning and its terminating zero. */
    method GetDstLength(str: string, len: nat) returns (n: nat)
      requires Ok() && '\0' !in str
      requires |Meaning(Config(), if len == 0 || |str| < len then str else str[..len])| < 0x8000_0000
      ensures n == |Meaning(Config(), if len == 0 || |str| < len then str else str[..len])| + 1
    {
      assert str[..|str|] == str;
      var sink := new Sink(null, 0xFFFF_FFFF);
      var offset := Parse(str, if len == 0 then |str| else len, sink, []);
      n := offset + 1;
    }

    lemma StoredMeans(sink: Sink, full: string, base: seq<char>)
      requires sink.Valid() && sink.buffer != null
      requires sink.Stored(full + ['\0'], Min(|full| + 1, sink.len - 1), base)
      ensures var n := Min(|full|, sink.len - 1);
              && |base| == sink.buffer.Length && sink.buffer[..n] == full[..n]
              && (|full| < sink.len - 1 ==> sink.buffer[n] == '\0' && sink.buffer[n + 1..] == base[n + 1..])
              && (|full| >= sink.len - 1 ==> sink.buffer[n..] == base[n..])
    {
      var n, m := Min(|full|, sink.len - 1), Min(|full| + 1, sink.len - 1);
      assert (full + ['\0'])[..n] == full[..n];
      assert sink.buffer[..m][..n] == sink.buffer[..n];
      if |full| < sink.len - 1 {
        assert sink.buffer[n] == sink.buffer[..m][n] == '\0';
      }
    }
  }

  lemma NothingLeft(u: Setup, st: State, word: string, s: string)
    requires StateOk(u, st) && (s == [] || s[0] == '\0')
    ensures Spec(u, st, word, s) == []
  {
  }

  /** What the next character does to the meaning of the rest. */
  lemma Unfold(u: Setup, st: State, word: string, text: string, p: nat)
    requires StateOk(u, st) && p < |text| && text[p] != '\0'
    ensures var c, rest := text[p], text[p + 1..];
            Spec(u, st, word, text[p..])
            == match st
               case Dull =>
                 if IsEscape(u, c) then Spec(u, Esc, [], rest)
                 else if OpenFrom(u, 0, c) < LAST then Spec(u, Word(OpenFrom(u, 0, c)), [], rest)
                 else [c] + Spec(u, Dull, [], rest)
               case Esc => [c] + Spec(u, Dull, [], rest)
               case Word(t) =>
                 if c == u.tokens[t].value.close then
                   Replaced(u.handlers[t], word, [u.tokens[t].value.open] + word + [c]) + Spec(u, Dull, [], rest)
                 else Spec(u, Word(t), word + [c], rest)
  {
    assert text[p..][1..] == text[p + 1..];
  }

  /** A list without the first handler of the given identity. */
  function WithoutHandler(hs: seq<Handler>, id: nat): seq<Handler> {
    if hs == [] then [] else if hs[0].id == id then hs[1..] else [hs[0]] + WithoutHandler(hs[1..], id)
  }

  lemma PassHandler(hs: seq<Handler>, l: nat, id: nat)
    requires l < |hs| && hs[l].id != id
    ensures hs[..l] + WithoutHandler(hs[l..], id) == hs[..l + 1] + WithoutHandler(hs[l + 1..], id)
  {
    assert hs[l..][1..] == hs[l + 1..];
    assert hs[..l] + [hs[l]] == hs[..l + 1];
  }

  lemma DropHandler(hs: seq<Handler>, l: nat, id: nat)
    requires l <= |hs| && (l < |hs| ==> hs[l].id == id)
    ensures hs[..l] + WithoutHandler(hs[l..], id) == if l < |hs| then hs[..l] + hs[l + 1..] else hs
  {
    if l < |hs| { assert hs[l..][1..] == hs[l + 1..]; }
  }

  /** The list after further handlers have been installed one after the other: the last one comes first. */
  function InstalledOn(hs: seq<Handler>, later: seq<Handler>): seq<Handler>
    decreases |later|
  {
    if later == [] then hs
    else [later[|later| - 1]] + InstalledOn(hs, later[..|later| - 1])
  }

  /** Uninstalling a handler undoes its installation, whatever has been installed before and since. */
  lemma {:induction false} InstallUninstall(hs: seq<Handler>, h: Handler, later: seq<Handler>)
    requires forall i :: 0 <= i < |later| ==> later[i].id != h.id
    ensures WithoutHandler(InstalledOn([h] + hs, later), h.id) == InstalledOn(hs, later)
    decreases |later|
  {
    if later != [] {
      var n := |later| - 1;
      InstallUninstall(hs, h, later[..n]);
      assert ([later[n]] + InstalledOn([h] + hs, later[..n]))[1..] == InstalledOn([h] + hs, later[..n]);
    }
  }
}
