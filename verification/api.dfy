/** The JSON shapes exchanged between the web client and the backend. */
module Api {

  /**
   One entry of the `/classify_resume` response. The backend rounds the
   confidence to two decimals, so it is held as an integer count of
   hundredths of a percent: 87.25 is 8725.
   */
  datatype Classification = Classification(role: string, confidence: int)

  datatype Contact = Contact(email: string, phone: string)

  /** FastAPI's `HTTPException`: a status code and a detail message. */
  datatype HttpError = HttpError(status: int, detail: string)
}
