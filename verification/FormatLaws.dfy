/** What a whole format prints (vsnprintf, lib/vsprintf.c), against section 7.19.6.1 of ISO/IEC 9899:1999. */
module FormatLaws {
  import opened Words
  import opened Ctype
  import opened FormatSpec
  import opened Wrappers
  import opened Strto
  import opened StandardDirective

  /** A piece of a format: ordinary characters, a percent sign, or a directive. */
  datatype Piece = Literal(w: string) | Percent | Conversion(d: Directive)

  predicate Plain(w: string) {
    forall k | 0 <= k < |w| :: w[k] != '%' && w[k] != '\0'
  }

  function PieceText(p: Piece): string {
    match p
    case Literal(w) => w
    case Percent => "%%"
    case Conversion(d) => "%" + DirectiveText(d)
  }

  function FormatText(ps: seq<Piece>): string {
    if ps == [] then "" else PieceText(ps[0]) + FormatText(ps[1..])
  }

  /** The text of one piece and the arguments it leaves. */
  function PieceOutput(p: Piece, args: seq<Arg>): Option<(string, seq<Arg>)> {
    match p
    case Literal(w) => Some((w, args))
    case Percent => Some(("%", args))
    case Conversion(d) =>
      match DirectiveField(d, args)
      case None => None
      case Some(t) => Some((t, LayoutOf(d, args).value.args[1..]))
  }

  /** The output that the standard asks for. */
  function StandardOutput(ps: seq<Piece>, args: seq<Arg>): Option<string> {
    if ps == [] then Some("")
    else
      match PieceOutput(ps[0], args)
      case None => None
      case Some((t, rest)) =>
        match StandardOutput(ps[1..], rest)
        case None => None
        case Some(more) => Some(t + more)
  }

  predicate PieceConforms(p: Piece, args: seq<Arg>) {
    match p
    case Literal(w) => Plain(w)
    case Percent => true
    case Conversion(d) =>
      && Grammatical(d) && DirectiveField(d, args).Some? && DirectiveConforms(d, args)
      && var a := LayoutOf(d, args).value.args[0];
      a.Str? ==> |a.s| < TWO_32
  }

  /** Every piece conforms with the arguments that are left for it. */
  predicate AllConform(ps: seq<Piece>, args: seq<Arg>) {
    ps != [] ==>
      PieceConforms(ps[0], args)
      && (PieceOutput(ps[0], args).Some? ==> AllConform(ps[1..], PieceOutput(ps[0], args).value.1))
  }

  lemma Inside(fmt: string, i: nat, t: string)
    requires Stands(fmt, i, t)
    ensures i + |t| <= |fmt|
  {
  }

  lemma OneCharacter(fmt: string, i: nat, args: seq<Arg>, at: nat)
    requires i < |fmt| && fmt[i] != '%' && fmt[i] != '\0'
    ensures Render(fmt, i, args) ==
      match Render(fmt, i + 1, args)
      case None => None
      case Some(t) => Some([fmt[i]] + t)
    ensures Pokes(fmt, i, args, at) == Pokes(fmt, i + 1, args, at + 1)
  {
  }

  /** Ordinary characters print themselves. */
  lemma {:induction false} LiteralRendered(fmt: string, i: nat, w: string, args: seq<Arg>, at: nat)
    requires Stands(fmt, i, w) && Plain(w)
    ensures i + |w| <= |fmt|
    ensures Render(fmt, i, args) ==
      match Render(fmt, i + |w|, args)
      case None => None
      case Some(t) => Some(w + t)
    ensures Pokes(fmt, i, args, at) == Pokes(fmt, i + |w|, args, at + |w|)
    decreases |w|
  {
    hide Render, Pokes, Stands;
    Inside(fmt, i, w);
    var rest := Render(fmt, i + |w|, args);
    if w == "" {
      assert rest.Some? ==> "" + rest.value == rest.value;
    } else {
      assert w == [w[0]] + w[1..];
      StandsAt(fmt, i, w, 0);
      StandsApart(fmt, i, [w[0]], w[1..]);
      OneCharacter(fmt, i, args, at);
      LiteralRendered(fmt, i + 1, w[1..], args, at + 1);
      if rest.Some? {
        assert [w[0]] + (w[1..] + rest.value) == w + rest.value;
      }
    }
  }

  /** A percent sign prints itself, and so does a conversion that does not exist, with its percent sign; neither uses
      an argument. */
  lemma OthersRendered(fmt: string, i: nat, args: seq<Arg>)
    requires i + 1 < |fmt| && fmt[i] == '%' && !TakesArg(fmt[i + 1]) && fmt[i + 1] != '\0'
    requires fmt[i + 1] !in {'-', '+', ' ', '#', '0', '.', '*', 'h', 'l', 'L', 'z', 'Z'} && !IsDigit(fmt[i + 1])
    ensures Render(fmt, i, args) ==
      match Render(fmt, i + 2, args)
      case None => None
      case Some(t) => Some((if fmt[i + 1] == '%' then "%" else ['%', fmt[i + 1]]) + t)
  {
    assert ScanFlags(fmt, i + 1, 0) == (0, i + 1);
    assert ParseSpec(fmt, i + 1, args) == Some(Spec(0, -1, -1, '\0', i + 1, args));
  }

  /** A percent sign at the end of the format prints itself. */
  lemma LonePercent(fmt: string, i: nat, args: seq<Arg>)
    requires i + 1 == |fmt| && fmt[i] == '%'
    ensures Render(fmt, i, args) == Some("%")
  {
    assert ScanFlags(fmt, i + 1, 0) == (0, i + 1);
    assert ParseSpec(fmt, i + 1, args) == Some(Spec(0, -1, -1, '\0', i + 1, args));
    assert Render(fmt, i + 1, args) == Some("") && "%" + "" == "%";
  }

  /** `%n` prints nothing, and stores the length of the text before it through its pointer. */
  lemma CountStored(fmt: string, i: nat, w: u32, rest: seq<Arg>, at: nat)
    requires i + 1 < |fmt| && fmt[i] == '%' && fmt[i + 1] == 'n'
    ensures Render(fmt, i, [Word(w)] + rest) == Render(fmt, i + 2, rest)
    ensures Pokes(fmt, i, [Word(w)] + rest, at) == [Poke(w, at)] + Pokes(fmt, i + 2, rest, at)
  {
    var args := [Word(w)] + rest;
    assert args[1..] == rest && args[0] == Word(w);
    assert ScanFlags(fmt, i + 1, 0) == (0, i + 1);
    assert ParseSpec(fmt, i + 1, args) == Some(Spec(0, -1, -1, '\0', i + 1, args));
    assert forall t: string :: "" + t == t;
  }

  lemma RenderDirective(fmt: string, i: nat, args: seq<Arg>, spec: Spec, t: string, next: nat, rest: seq<Arg>)
    requires i < |fmt| && fmt[i] == '%' && ParseSpec(fmt, i + 1, args) == Some(spec)
    requires Convert(fmt, spec) == Some((t, next, rest)) && i < next <= |fmt|
    ensures Render(fmt, i, args) ==
      match Render(fmt, next, rest)
      case None => None
      case Some(more) => Some(t + more)
  {
    hide ParseSpec, Convert;
  }

  /** A directive that conforms prints the standard's text, and leaves the arguments behind its own. */
  lemma DirectiveRendered(fmt: string, i: nat, d: Directive, args: seq<Arg>)
    requires PieceConforms(Conversion(d), args) && Stands(fmt, i, "%" + DirectiveText(d))
    ensures i + 1 + |DirectiveText(d)| <= |fmt|
    ensures Render(fmt, i, args) ==
      match Render(fmt, i + 1 + |DirectiveText(d)|, LayoutOf(d, args).value.args[1..])
      case None => None
      case Some(more) => Some(DirectiveField(d, args).value + more)
  {
    hide DirectiveText, Stands, ParseSpec, LayoutOf, FieldText, DirectiveConforms, Render, CodeFlags,
         NegativePrecision, LengthCode;
    StandsApart(fmt, i, "%", DirectiveText(d));
    StandsAt(fmt, i, "%", 0);
    HasArgument(d, args);
    DirectiveRead(fmt, i + 1, d, args);
    DirectiveIsStandardIff(fmt, i + 1, d, args);
    LongerThanNothing(d);
    var l := LayoutOf(d, args).value;
    var spec := ParseSpec(fmt, i + 1, args).value;
    TakesOne(d.conv);
    RenderDirective(fmt, i, args, spec, DirectiveField(d, args).value, spec.at + 1, l.args[1..]);
  }

  lemma HasArgument(d: Directive, args: seq<Arg>)
    requires DirectiveField(d, args).Some?
    ensures LayoutOf(d, args).Some? && LayoutOf(d, args).value.args != []
  {
  }

  lemma LongerThanNothing(d: Directive)
    ensures |DirectiveText(d)| >= 1
  {
  }

  lemma TakesOne(c: char)
    requires IsConversion(c)
    ensures TakesArg(c)
  {
  }

  lemma PieceRendered(fmt: string, i: nat, p: Piece, args: seq<Arg>)
    requires Stands(fmt, i, PieceText(p)) && PieceConforms(p, args)
    ensures PieceOutput(p, args).Some? && i + |PieceText(p)| <= |fmt|
    ensures Render(fmt, i, args) ==
      match Render(fmt, i + |PieceText(p)|, PieceOutput(p, args).value.1)
      case None => None
      case Some(more) => Some(PieceOutput(p, args).value.0 + more)
  {
    hide Render, Stands, DirectiveText, DirectiveField, LayoutOf, DirectiveConforms;
    match p
    case Literal(w) =>
      LiteralRendered(fmt, i, w, args, 0);
    case Percent =>
      StandsAt(fmt, i, "%%", 0);
      StandsAt(fmt, i, "%%", 1);
      Inside(fmt, i, "%%");
      OthersRendered(fmt, i, args);
    case Conversion(d) =>
      DirectiveRendered(fmt, i, d, args);
  }

  lemma {:induction false} PiecesRendered(fmt: string, i: nat, ps: seq<Piece>, args: seq<Arg>)
    requires Stands(fmt, i, FormatText(ps)) && i + |FormatText(ps)| == |fmt| && AllConform(ps, args)
    ensures Render(fmt, i, args) == StandardOutput(ps, args) && StandardOutput(ps, args).Some?
    decreases |ps|
  {
    hide Render, Stands, PieceText, PieceOutput, PieceConforms;
    if ps == [] {
      NothingLeft(fmt, i, args);
    } else {
      StandsApart(fmt, i, PieceText(ps[0]), FormatText(ps[1..]));
      PieceRendered(fmt, i, ps[0], args);
      PiecesRendered(fmt, i + |PieceText(ps[0])|, ps[1..], PieceOutput(ps[0], args).value.1);
    }
  }

  lemma NothingLeft(fmt: string, i: nat, args: seq<Arg>)
    requires i == |fmt|
    ensures Render(fmt, i, args) == Some("")
  {
  }

  /** A format of any ordinary characters, percent signs and conforming directives prints exactly what the standard
      says. */
  lemma FormatIsStandard(ps: seq<Piece>, args: seq<Arg>)
    requires AllConform(ps, args)
    ensures Render(FormatText(ps), 0, args) == StandardOutput(ps, args) && StandardOutput(ps, args).Some?
  {
    hide Render, AllConform, StandardOutput;
    var fmt := FormatText(ps);
    assert fmt[0..|fmt|] == fmt;
    PiecesRendered(fmt, 0, ps, args);
  }
}
