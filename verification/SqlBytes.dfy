/** The byte classes that the SQL modules and their results speak of, byte by byte. */
module SqlBytes {

  ghost predicate QuoteMark(c: char) { c == '\'' || c == '"' || c == '`' }

  ghost predicate WordByte(c: char) {
    c == '_' || '0' <= c <= '9' || 'A' <= c <= 'Z' || 'a' <= c <= 'z'
  }

  ghost predicate Letter(c: char) { 'A' <= c <= 'Z' || 'a' <= c <= 'z' }

  ghost predicate SpaceByte(c: char) { c == ' ' || c == '\t' || c == '\n' || c == '\r' }

  /** What a regular expression calls white space. */
  ghost predicate WhiteSpace(c: char) { SpaceByte(c) || c == '\U{C}' }

  /** No byte of the text opens a quote, a heredoc or a comment, and none separates. */
  ghost predicate Ordinary(w: string) {
    forall k :: 0 <= k < |w| ==>
      !QuoteMark(w[k]) && w[k] != '-' && w[k] != '/' && w[k] != '#' && w[k] != '$' && w[k] != ';'
  }
}
