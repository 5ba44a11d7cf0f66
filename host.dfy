/**
 * The part of markdown-it that the directive rules see.
 *
 * A block rule reads the lines of the block state: for line `i`, `raw` is
 * `src.slice(bMarks[i], eMarks[i])` and `shift` is `tShift[i]`, the offset of
 * its first non-indent character. An inline rule reads `src` from `pos`.
 * Both push tokens and move `line` or `pos`. The renderer's `render`,
 * `renderInline` and `utils.escapeHtml` are arbitrary functions supplied by
 * the caller; nothing is assumed about them.
 */
module Host {
  import opened Wrappers

  datatype Line = Line(raw: string, shift: nat) {
    /** `src.slice(bMarks[i] + tShift[i], eMarks[i])`: the line without its indentation. */
    function Text(): string {
      if shift <= |raw| then raw[shift..] else ""
    }

    /** `state.isEmpty(i)`: nothing after the indentation. */
    predicate IsEmpty() {
      shift >= |raw|
    }
  }

  /** The lines of a source split at `\n`, as markdown-it builds them, never contain `\n`. */
  predicate SplitLines(lines: seq<Line>) {
    forall i :: 0 <= i < |lines| ==> '\n' !in lines[i].raw
  }

  /** A token as the rules leave it: `type`, `tag`, `nesting`, `content`, `map`, `markup`. */
  datatype Token = Token(kind: string, tag: string, nesting: int, content: string,
                         lineMap: Option<(nat, nat)>, markup: string)

  /** The markdown-it instance's rendering entry points. */
  datatype Renderer = Renderer(render: string -> string,
                               renderInline: string -> string,
                               escapeHtml: string -> string)

  /**
   * What a rule did: declined, accepted in silent mode (nothing pushed,
   * nothing moved), or emitted a token and moved the line or position to `next`.
   */
  datatype Outcome = Declined | Matched | Emitted(next: nat, token: Token)

  /** markdown-it's `StateBlock`, reduced to what the block rules read and change. */
  class BlockState {
    const lines: seq<Line>
    var line: nat
    var tokens: seq<Token>

    constructor (lines: seq<Line>, line: nat)
      ensures this.lines == lines && this.line == line && this.tokens == []
    {
      this.lines := lines;
      this.line := line;
      this.tokens := [];
    }

    /** `state.push(...)` followed by filling in the token's fields. */
    method Push(t: Token)
      modifies this
      ensures tokens == old(tokens) + [t]
      ensures line == old(line)
    {
      tokens := tokens + [t];
    }
  }

  /** markdown-it's `StateInline`, reduced to what the inline rules read and change. */
  class InlineState {
    const src: string
    var pos: nat
    var tokens: seq<Token>

    constructor (src: string, pos: nat)
      ensures this.src == src && this.pos == pos && this.tokens == []
    {
      this.src := src;
      this.pos := pos;
      this.tokens := [];
    }

    method Push(t: Token)
      modifies this
      ensures tokens == old(tokens) + [t]
      ensures pos == old(pos)
    {
      tokens := tokens + [t];
    }
  }
}
