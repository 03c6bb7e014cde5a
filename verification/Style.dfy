/** Cell styles, hyperlinks and what a host terminal can show of them (grid.rs, host_terminal.rs). */
module Style {
  import opened Text

  type Byte = x: int | 0 <= x < 256

  datatype TerminalColor = Rgb(red: Byte, green: Byte, blue: Byte) | Indexed(index: Byte)

  datatype Underline = NoUnderline | Single | Double | Curly | Dotted | Dashed

  datatype CellStyle = CellStyle(
    fg: Option<TerminalColor>,
    bg: Option<TerminalColor>,
    bold: bool,
    italic: bool,
    underline: Underline,
    underlineColor: Option<TerminalColor>,
    dim: bool,
    reverse: bool,
    blink: bool,
    strikeout: bool)
  {
    /** This style as a host with these capabilities can show it. */
    function ForHost(host: HostCapabilities): CellStyle {
      var narrowed := if !host.underlineStyles && underline != NoUnderline
                      then this.(underline := Single) else this;
      if !host.underlineColor then narrowed.(underlineColor := None) else narrowed
    }
  }

  /** `shown` is `style` as a host shows it: everything but the underline as it is, the underline plain on a
      host without underline styles, its color only where the host has one. */
  ghost predicate ShowsStyle(host: HostCapabilities, style: CellStyle, shown: CellStyle) {
    && shown.fg == style.fg && shown.bg == style.bg
    && shown.bold == style.bold && shown.italic == style.italic && shown.dim == style.dim
    && shown.reverse == style.reverse && shown.blink == style.blink && shown.strikeout == style.strikeout
    && (host.underlineStyles || style.underline == NoUnderline ==> shown.underline == style.underline)
    && (!host.underlineStyles && style.underline != NoUnderline ==> shown.underline == Single)
    && shown.underlineColor == if host.underlineColor then style.underlineColor else None
  }

  /** A host that has all of it shows the style itself. */
  lemma ForHostShows(host: HostCapabilities, style: CellStyle)
    ensures ShowsStyle(host, style, style.ForHost(host))
    ensures host.underlineStyles && host.underlineColor ==> style.ForHost(host) == style
  {
  }

  const PLAIN := CellStyle(None, None, false, false, NoUnderline, None, false, false, false, false)

  datatype HostCapabilities = HostCapabilities(
    underlineStyles: bool,
    underlineColor: bool,
    hyperlinks: bool)

  datatype Hyperlink = Hyperlink(id: Option<string>, uri: string)
}
