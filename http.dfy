/** What a `requests.get` call gives back to the monitors, as an input to the model. */
module Http {
  /** Either the request raised (network error, timeout, ...) or a response arrived,
      with its status code and the page as parsed by the HTML parser. */
  datatype Fetched<T> = Failed | Response(status: int, body: T)

  /** The only status the monitors accept as success. */
  const Ok := 200
}
