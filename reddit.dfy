/** The reddit client's error type. */
module Reddit {

  /** `RedditError`: rejected client credentials, rejected user credentials, another status
      than OK, or a failure to send the request or to decode its reply. */
  datatype RedditError = Unauthorized | BadCredentials | OtherStatus(code: nat) | OtherError
}
