/**
 * The fixed pieces of text the plugin prints: the ANSI colour codes of the
 * globals at Dev/Git/get_pull_requests_bitbar.15m.rb:83-93 that it uses, and
 * the two Nerd Font glyphs that appear in its output.
 */
module Palette {
  const ColorGreen: string := "\U{1B}[32m"
  const ColorBlue: string := "\U{1B}[34m"
  const ColorYellow: string := "\U{1B}[33m"
  const ColorCyan: string := "\U{1B}[36m"
  const ColorWhite: string := "\U{1B}[37m"
  const AnsiClear: string := "\U{1B}[0m"

  /** The pull-request icon (U+E726 in the Nerd Fonts private-use area). */
  const PrGlyph: string := "\U{E726}"

  /** The check-mark icon (U+F62B in the Nerd Fonts private-use area). */
  const CheckGlyph: string := "\U{F62B}"

  /** The font hint BitBar reads at the end of a summary line. */
  const FontHint: string := "font=DejaVuSansMonoNerdFontCompleteM-Book"
}
