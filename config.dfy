/** The settings the terminal core reads from config.h. That header is
    not part of this model; the values are those of upstream st, from
    which the code derives. */
module Config {
  import opened Utf8

  /** tabspaces: the distance between the initial tab stops. */
  const TabSpaces: nat := 8

  /** defaultfg, defaultbg: the palette indices of the default colours. */
  const DefaultFg: nat := 7
  const DefaultBg: nat := 0

  /** allowaltscreen: whether modes 47, 1047 and 1049 may switch screens. */
  const AllowAltScreen: bool := true

  /** vtiden: the answer to DA and DECID, "\033[?6c" (a VT102). */
  const VtIden: seq<Byte> := [0x1b, '[' as Byte, '?' as Byte, '6' as Byte, 'c' as Byte]

  /** worddelimiters: the UTF-8 string of the code points that end a
      word for word snapping. */
  const WordDelimiters: seq<Byte> := [' ' as Byte]

  /** borderpx: the border in pixels around the cell grid. */
  const BorderPx: int := 2
}
